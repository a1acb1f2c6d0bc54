/**
 * The server-side generation endpoint: it turns the user's description (and,
 * when editing, the current SVG) into one instruction for the language model,
 * pulls the SVG markup out of the model's reply, and maps the upstream
 * outcome to the endpoint's response.
 */
module GenerateIcon {
  import opened Options
  import opened Strings

  // ---------------------------------------------------------------------------
  // Prompt templates. Each line after the first is indented by twelve spaces,
  // exactly as the template literals in the handler are.
  // ---------------------------------------------------------------------------

  const Indent := "            "

  const EditMarker := "I have an existing SVG icon"
  const EditOpening := EditMarker + EditLead
  const EditLead := " that I want to modify based on this description: \""
  const EditMiddle := "\".\n" + Indent + "\n" + Indent + "Here is the current SVG code:\n" + Indent
  const EditClosing :=
    "\n" + Indent + "\n"
    + Indent + "Please modify this SVG according to my description. \n"
    + Indent + "\n"
    + Indent + "Important requirements:\n"
    + Indent + "- Respond ONLY with valid SVG code\n"
    + Indent + "- No explanations or markdown\n"
    + Indent + "- The SVG should be simple, clean, and suitable as an icon\n"
    + Indent + "- Maintain the same viewBox if possible\n"
    + Indent + "- Include appropriate colors\n"
    + Indent + "- The SVG should be self-contained with all styling inline"

  const CreateMarker := "Create an SVG icon"
  const CreateOpening := CreateMarker + CreateLead
  const CreateLead := " based on this description: \""
  const CreateClosing :=
    "\". \n"
    + Indent + "\n"
    + Indent + "Important requirements:\n"
    + Indent + "- Respond ONLY with valid SVG code\n"
    + Indent + "- No explanations or markdown\n"
    + Indent + "- The SVG should be simple, clean, and suitable as an icon\n"
    + Indent + "- Use a viewBox that makes sense for the icon\n"
    + Indent + "- Only change colors if explicity requested\n"
    + Indent + "- The SVG should be self-contained with all styling inline"

  /** Where the description and the current SVG sit inside an edit prompt. */
  function EditDescriptionAt(): nat { |EditOpening| }
  function EditSvgAt(prompt: string): nat { |EditOpening| + |prompt| + |EditMiddle| }

  /** Where the pieces of a filled-in edit template sit, whatever their text. */
  lemma EditLayout(opening: string, prompt: string, middle: string, svg: string, closing: string, marker: string)
    requires StartsWith(opening, marker)
    ensures var r := opening + prompt + middle + svg + closing;
      && StartsWith(r, marker)
      && OccursAt(r, prompt, |opening|)
      && OccursAt(r, svg, |opening| + |prompt| + |middle|)
  {
    var head := opening + prompt + middle;
    StartsWithLonger(opening, prompt, marker);
    StartsWithLonger(opening + prompt, middle, marker);
    StartsWithLonger(head, svg, marker);
    StartsWithLonger(head + svg, closing, marker);
    OccursInMiddle(opening, prompt, middle);
    OccursInLonger(head, svg, prompt, |opening|);
    OccursInLonger(head + svg, closing, prompt, |opening|);
    OccursInMiddle(head, svg, closing);
  }

  /** Where the description sits in a filled-in creation template, whatever its text. */
  lemma CreateLayout(opening: string, prompt: string, closing: string, marker: string)
    requires StartsWith(opening, marker)
    ensures var r := opening + prompt + closing;
      && StartsWith(r, marker)
      && OccursAt(r, prompt, |opening|)
  {
    StartsWithLonger(opening, prompt, marker);
    StartsWithLonger(opening + prompt, closing, marker);
    OccursInMiddle(opening, prompt, closing);
  }

  /** The edit template around the description and the current SVG. */
  function EditPrompt(prompt: string, svg: string): (r: string)
    ensures StartsWith(r, EditMarker)
    ensures OccursAt(r, prompt, EditDescriptionAt())
    ensures OccursAt(r, svg, EditSvgAt(prompt))
  {
    PrefixOfConcat(EditMarker, EditLead);
    EditLayout(EditOpening, prompt, EditMiddle, svg, EditClosing, EditMarker);
    EditOpening + prompt + EditMiddle + svg + EditClosing
  }

  /** The creation template around the description. */
  function CreatePrompt(prompt: string): (r: string)
    ensures StartsWith(r, CreateMarker)
    ensures OccursAt(r, prompt, |CreateOpening|)
    ensures |r| == |CreateOpening| + |prompt| + |CreateClosing|
  {
    PrefixOfConcat(CreateMarker, CreateLead);
    CreateLayout(CreateOpening, prompt, CreateClosing, CreateMarker);
    CreateOpening + prompt + CreateClosing
  }

  /**
   * The instruction sent to the model: the edit template when `currentSvg` is
   * truthy, the creation template otherwise (absent, null or empty).
   */
  function BuildPrompt(prompt: string, currentSvg: Option<string>): (r: string)
    ensures Truthy(currentSvg) ==>
      && StartsWith(r, EditMarker)
      && OccursAt(r, prompt, EditDescriptionAt())
      && OccursAt(r, currentSvg.value, EditSvgAt(prompt))
    ensures !Truthy(currentSvg) ==>
      && StartsWith(r, CreateMarker)
      && OccursAt(r, prompt, |CreateOpening|)
      && |r| == |CreateOpening| + |prompt| + |CreateClosing|
  {
    if Truthy(currentSvg) then EditPrompt(prompt, currentSvg.value) else CreatePrompt(prompt)
  }

  /** No text starts with both markers: they differ in their first letter. */
  lemma MarkersExclude(r: string)
    requires StartsWith(r, EditMarker)
    ensures !StartsWith(r, CreateMarker)
  {
    assert r[0] == EditMarker[0] == 'I' && CreateMarker[0] == 'C';
  }

  /** The two templates are told apart by their first words, and the choice follows truthiness. */
  lemma PromptModeIsRecognisable(prompt: string, currentSvg: Option<string>)
    ensures StartsWith(BuildPrompt(prompt, currentSvg), EditMarker) <==> Truthy(currentSvg)
    ensures StartsWith(BuildPrompt(prompt, currentSvg), CreateMarker) <==> !Truthy(currentSvg)
  {
    var r := BuildPrompt(prompt, currentSvg);
    if Truthy(currentSvg) {
      MarkersExclude(r);
    } else if StartsWith(r, EditMarker) {
      MarkersExclude(r);
    }
  }

  /** The creation prompt depends on the description alone, and the description can be read back from it. */
  lemma CreationPromptDeterminesDescription(p1: string, s1: Option<string>, p2: string, s2: Option<string>)
    requires !Truthy(s1) && !Truthy(s2)
    ensures BuildPrompt(p1, s1) == BuildPrompt(p2, s2) <==> p1 == p2
  {
    var r1, r2 := BuildPrompt(p1, s1), BuildPrompt(p2, s2);
    if r1 == r2 {
      assert |p1| == |p2|;
      assert p1 == r1[|CreateOpening|..|CreateOpening| + |p1|];
    }
  }

  // ---------------------------------------------------------------------------
  // Extraction of the SVG markup from the reply, /<svg[\s\S]*<\/svg>/.
  // ---------------------------------------------------------------------------

  const SvgOpen := "<svg"
  const SvgClose := "</svg>"

  /**
   * The pattern matches the text from index `start` up to the closing tag
   * starting at `close`: `<svg`, then any characters at all, then `</svg>`.
   */
  ghost predicate IsMatch(text: string, start: int, close: int) {
    OccursAt(text, SvgOpen, start) && start + |SvgOpen| <= close && OccursAt(text, SvgClose, close)
  }

  /** A matched slice `text[start..end]`. */
  datatype Span = Span(start: nat, end: nat)

  /**
   * The match the regular expression finds: the leftmost start at which the
   * pattern can match, and from there the longest match, since `[\s\S]*`
   * is greedy and backtracks only as far as it must.
   */
  function FindSvg(text: string): (m: Option<Span>)
    ensures m.None? <==> forall i, c :: !IsMatch(text, i, c)
    ensures m.Some? ==> m.value.end <= |text| && IsMatch(text, m.value.start, m.value.end - |SvgClose|)
    ensures m.Some? ==> forall i, c :: IsMatch(text, i, c) ==> m.value.start <= i
    ensures m.Some? ==> forall c :: IsMatch(text, m.value.start, c) ==> c + |SvgClose| <= m.value.end
  {
    match IndexOf(text, SvgOpen)
    case None => None
    case Some(i) =>
      match LastIndexOf(text, SvgClose)
      case None => None
      case Some(c) =>
        assert forall i', c' :: IsMatch(text, i', c') ==> i <= i' && c' <= c;
        if i + |SvgOpen| <= c then
          assert IsMatch(text, i, c);
          Some(Span(i, c + |SvgClose|))
        else None
  }

  /** `cleanSvg`: the matched markup, or the whole reply when nothing matches. */
  function ExtractSvg(reply: string): (r: string)
    ensures FindSvg(reply).None? ==> r == reply
    ensures FindSvg(reply).Some? ==>
      && r == reply[FindSvg(reply).value.start..FindSvg(reply).value.end]
      && StartsWith(r, SvgOpen) && EndsWith(r, SvgClose)
      && |SvgOpen| + |SvgClose| <= |r|
  {
    match FindSvg(reply)
    case None => reply
    case Some(m) =>
      SliceFromOccurrence(reply, SvgOpen, m.start, m.end);
      SliceToOccurrence(reply, SvgClose, m.start, m.end);
      reply[m.start..m.end]
  }

  /** When something matches, extraction runs from the first `<svg` to the end of the last `</svg>`. */
  lemma ExtractSpansFirstOpenToLastClose(reply: string, i: nat, c: nat)
    requires FirstOccurrence(reply, SvgOpen, i)
    requires OccursAt(reply, SvgClose, c) && forall j :: c < j ==> !OccursAt(reply, SvgClose, j)
    requires i + |SvgOpen| <= c
    ensures ExtractSvg(reply) == reply[i..c + |SvgClose|]
  {
    assert IsMatch(reply, i, c);
    var m := FindSvg(reply).value;
    assert IsMatch(reply, m.start, m.end - |SvgClose|);
    assert m.start == i;
  }

  /** Extracting from an extracted result changes nothing. */
  lemma ExtractIdempotent(reply: string)
    ensures ExtractSvg(ExtractSvg(reply)) == ExtractSvg(reply)
  {
    var r := ExtractSvg(reply);
    if FindSvg(reply).Some? {
      assert IsMatch(r, 0, |r| - |SvgClose|);
      var m := FindSvg(r).value;
      assert m.start == 0;
      assert IsMatch(r, 0, m.end - |SvgClose|);
      assert r[m.start..m.end] == r;
    }
  }

  // ---------------------------------------------------------------------------
  // The request handler, with the request body and the upstream call abstracted.
  // ---------------------------------------------------------------------------

  /** The decoded request body, or the message of the exception decoding it raised. */
  datatype RequestBody =
    | Unreadable(message: string)
    | Body(prompt: string, currentSvg: Option<string>)

  /** What the call to the model provider came to. */
  datatype Upstream =
    | Raised(message: string)                // the call, or decoding its reply, threw
    | Refused(status: int, errorData: string) // `response.ok` was false; the decoded error body
    | Replied(text: string)                  // `response.ok` was true; the first content block's text

  /** `fetch` reports `ok` exactly for a status in 200..299, so a refusal carries another status. */
  predicate Consistent(u: Upstream) {
    u.Refused? ==> !(200 <= u.status < 300)
  }

  datatype Payload =
    | Svg(svg: string)
    | UpstreamError(errorData: string)
    | ErrorMessage(message: string)

  datatype Response = Response(status: int, payload: Payload)

  /**
   * The POST handler: build the prompt, ask the model, and answer with the
   * extracted SVG (status 200), the upstream error with the upstream status,
   * or the message of any exception with status 500.
   */
  function HandlePost(request: RequestBody, upstream: string -> Upstream): (resp: Response)
    ensures resp.payload.Svg? <==> request.Body? && upstream(BuildPrompt(request.prompt, request.currentSvg)).Replied?
    ensures resp.payload.Svg? ==>
      && resp.status == 200
      && resp.payload.svg == ExtractSvg(upstream(BuildPrompt(request.prompt, request.currentSvg)).text)
    ensures resp.payload.UpstreamError? ==>
      && request.Body?
      && var u := upstream(BuildPrompt(request.prompt, request.currentSvg));
         u.Refused? && resp.status == u.status && resp.payload.errorData == u.errorData
    ensures resp.payload.ErrorMessage? ==> resp.status == 500
    ensures request.Body? && upstream(BuildPrompt(request.prompt, request.currentSvg)).Refused? ==>
      var u := upstream(BuildPrompt(request.prompt, request.currentSvg));
      resp == Response(u.status, UpstreamError(u.errorData))
  {
    match request
    case Unreadable(message) => Response(500, ErrorMessage(message))
    case Body(prompt, currentSvg) =>
      match upstream(BuildPrompt(prompt, currentSvg))
      case Raised(message) => Response(500, ErrorMessage(message))
      case Refused(status, errorData) => Response(status, UpstreamError(errorData))
      case Replied(text) => Response(200, Svg(ExtractSvg(text)))
  }

  /** With a consistent upstream, the endpoint answers 2xx exactly when it answers with an SVG. */
  lemma SuccessStatusIffSvg(request: RequestBody, upstream: string -> Upstream)
    requires request.Body? ==> Consistent(upstream(BuildPrompt(request.prompt, request.currentSvg)))
    ensures var resp := HandlePost(request, upstream);
      200 <= resp.status < 300 <==> resp.payload.Svg?
  {
  }

  /** Any exception, whether decoding the request or calling upstream, becomes a 500 carrying its message. */
  lemma ExceptionsBecome500(request: RequestBody, upstream: string -> Upstream)
    requires request.Unreadable? || upstream(BuildPrompt(request.prompt, request.currentSvg)).Raised?
    ensures var resp := HandlePost(request, upstream);
      resp.status == 500 && resp.payload.ErrorMessage?
      && resp.payload.message == (if request.Unreadable? then request.message
                                  else upstream(BuildPrompt(request.prompt, request.currentSvg)).message)
  {
  }

  lemma NoTagWithoutBracket(text: string, j: int)
    requires 0 <= j < |text| ==> text[j] != '<'
    ensures !OccursAt(text, SvgOpen, j) && !OccursAt(text, SvgClose, j)
  {
    if 0 <= j < |text| {
      if j + 4 <= |text| { assert text[j..j + 4][0] == text[j]; }
      if j + 6 <= |text| { assert text[j..j + 6][0] == text[j]; }
    }
  }

  /** Surrounding prose is dropped. */
  lemma ExtractDropsProse()
    ensures ExtractSvg("Hi <svg></svg>.") == "<svg></svg>"
  {
    var svg := SvgOpen + ">" + SvgClose;
    var t := "Hi " + svg + ".";
    assert t == "Hi <svg></svg>." && svg == "<svg></svg>";
    assert t[3..14] == svg && t[3..7] == SvgOpen && t[8..14] == SvgClose;
    forall j | 0 <= j < 3 ensures !OccursAt(t, SvgOpen, j) {
      NoTagWithoutBracket(t, j);
    }
    forall j | 8 < j ensures !OccursAt(t, SvgClose, j) {
      NoTagWithoutBracket(t, j);
    }
    ExtractSpansFirstOpenToLastClose(t, 3, 8);
  }

  /** A reply without an opening tag, or without a closing tag, is passed through unchanged. */
  lemma ExtractFallsBack(reply: string)
    requires (forall j :: !OccursAt(reply, SvgOpen, j)) || (forall j :: !OccursAt(reply, SvgClose, j))
    ensures ExtractSvg(reply) == reply
  {
    assert forall i, c :: !IsMatch(reply, i, c);
  }

  /** The match is greedy: with two icons in the reply, both are returned, and what lies between them. */
  lemma ExtractIsGreedy()
    ensures ExtractSvg("<svg></svg> <svg></svg>") == "<svg></svg> <svg></svg>"
  {
    var t := SvgOpen + ">" + SvgClose + " " + SvgOpen + ">" + SvgClose;
    assert t == "<svg></svg> <svg></svg>";
    assert t[0..4] == SvgOpen && t[17..23] == SvgClose && t[0..23] == t;
    ExtractSpansFirstOpenToLastClose(t, 0, 17);
  }
}
