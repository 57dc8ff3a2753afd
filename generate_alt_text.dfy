/** Prompt construction for the vision service and the escaping of its reply. The
    service itself is not modelled: its reply text is a parameter. */
module GenerateAltText {
  import opened Wrappers
  import opened Strings
  import opened ChaptersAndImages

  /** One part of a user message. */
  datatype ContentPart =
    | InputText(text: string)
    | InputImage(image_url: string, detail: string)

  datatype Message = Message(role: string, content: seq<ContentPart>)

  const Opening: string :=
    "What's in this image?"
    + "\nPlease begin your response with 'This is an image of' or 'This image illustrates'"
  const ContextSentence: string :=
    "\nWhen responding, consider the image's context, including the Preceding Paragraph, "
    + "Succeeding Paragraph, and Caption, if applicable."
  const PrecedingLabel: string := "\nPreceding Paragraph: "
  const SucceedingLabel: string := "\nSucceeding Paragraph: "
  const CaptionLabel: string := "\nCaption: "

  const DefaultModel: string := "gpt-4o"
  const DefaultDetail: string := "high"

  /** At least one of the three context texts is non-empty. */
  predicate HasContext(image: Image) {
    image.preceding_para_text != "" || image.succeeding_para_text != "" || image.caption_text != ""
  }

  /** The line added for one context text: `heading + text`, or nothing when the text is empty. */
  function ContextLine(heading: string, text: string): string {
    if text == "" then "" else heading + text
  }

  /** The opening lines, followed by the context sentence when there is any context. */
  function PromptHead(image: Image): string {
    Opening + (if HasContext(image) then ContextSentence else "")
  }

  /** The generator; its only state is the model name, set once at construction. */
  datatype AllTextGenerator = AllTextGenerator(model: string) {

    /** The `input_text` of the prompt for `image`. */
    function PromptText(image: Image): string {
      PromptHead(image)
      + ContextLine(PrecedingLabel, image.preceding_para_text)
      + ContextLine(SucceedingLabel, image.succeeding_para_text)
      + ContextLine(CaptionLabel, image.caption_text)
    }

    /** `create_prompt`: no prompt without a data URI; otherwise one user message whose
        first part is the prompt text and whose second part carries the data URI and
        the detail level (by default "high"). */
    function CreatePrompt(image: Image, dataUri: Option<string>, detail: string := DefaultDetail): (r: Option<seq<Message>>)
      ensures r.None? <==> dataUri.None?
      ensures r.Some? ==>
        && |r.value| == 1
        && r.value[0].role == "user"
        && |r.value[0].content| == 2
        && r.value[0].content[0] == InputText(PromptText(image))
        && r.value[0].content[1] == InputImage(dataUri.value, detail)
    {
      if dataUri.None? then None
      else Some([Message("user", [InputText(PromptText(image)), InputImage(dataUri.value, detail)])])
    }

    /** `generate_alt_text`, given the service's reply: the reply HTML-escaped with
        quotes, so it carries no raw markup or quote character and unescapes back to
        the reply. */
    function GenerateAltText(image: Image, dataUri: Option<string>, reply: string): (r: string)
      ensures forall k :: 0 <= k < |r| ==> !IsSpecial(r[k])
      ensures AmpsEscaped(r)
      ensures HtmlUnescape(r) == reply
    {
      EscapeRoundTrip(reply);
      HtmlEscape(reply)
    }
  }

  /** Length of a context line. */
  function LineLength(heading: string, text: string): nat {
    if text == "" then 0 else |heading| + |text|
  }

  /** The prompt text starts with the two fixed opening lines. */
  lemma PromptStartsWithOpening(g: AllTextGenerator, image: Image)
    ensures StartsWith(g.PromptText(image), Opening)
  {
  }

  /** With no context at all the prompt is the opening lines alone; with some context
      the "consider the image's context" sentence directly follows them. */
  lemma ContextSentenceIffContext(g: AllTextGenerator, image: Image)
    ensures !HasContext(image) <==> g.PromptText(image) == Opening
    ensures HasContext(image) <==> OccursAt(g.PromptText(image), ContextSentence, |Opening|)
  {
    SentenceAfterOpening(Opening, ContextSentence, HasContext(image),
      ContextLine(PrecedingLabel, image.preceding_para_text),
      ContextLine(SucceedingLabel, image.succeeding_para_text),
      ContextLine(CaptionLabel, image.caption_text));
  }

  /** A non-empty sentence `cs` follows the opening `o` exactly when `has` holds; when
      it does not, nothing follows the opening. */
  lemma SentenceAfterOpening(o: string, cs: string, has: bool, l1: string, l2: string, l3: string)
    requires cs != []
    requires !has ==> l1 == [] && l2 == [] && l3 == []
    ensures var t := o + (if has then cs else "") + l1 + l2 + l3;
      && (!has <==> t == o)
      && (has <==> OccursAt(t, cs, |o|))
  {
    var t := o + (if has then cs else "") + l1 + l2 + l3;
    if has {
      assert t[|o|..|o| + |cs|] == cs;
      assert |t| > |o|;
    } else {
      assert t == o;
      assert |t| < |o| + |cs|;
    }
  }

  /** The context lines follow the opening (and the sentence) in the order preceding,
      succeeding, caption; each is present exactly when its text is non-empty, and
      nothing else is in the prompt. */
  lemma ContextLinesInOrder(g: AllTextGenerator, image: Image)
    ensures var t := g.PromptText(image);
      var p := image.preceding_para_text;
      var s := image.succeeding_para_text;
      var c := image.caption_text;
      var at0 := |PromptHead(image)|;
      var at1 := at0 + LineLength(PrecedingLabel, p);
      var at2 := at1 + LineLength(SucceedingLabel, s);
      && |t| == at2 + LineLength(CaptionLabel, c)
      && (p != "" ==> OccursAt(t, PrecedingLabel + p, at0))
      && (s != "" ==> OccursAt(t, SucceedingLabel + s, at1))
      && (c != "" ==> OccursAt(t, CaptionLabel + c, at2))
  {
    LinesAt(PromptHead(image), PrecedingLabel, image.preceding_para_text, SucceedingLabel,
      image.succeeding_para_text, CaptionLabel, image.caption_text);
  }

  /** Where the three context lines sit after a head. */
  lemma {:induction false} LinesAt(head: string, h1: string, x1: string, h2: string, x2: string, h3: string, x3: string)
    ensures var t := head + ContextLine(h1, x1) + ContextLine(h2, x2) + ContextLine(h3, x3);
      var at1 := |head| + LineLength(h1, x1);
      var at2 := at1 + LineLength(h2, x2);
      && |t| == at2 + LineLength(h3, x3)
      && (x1 != "" ==> OccursAt(t, h1 + x1, |head|))
      && (x2 != "" ==> OccursAt(t, h2 + x2, at1))
      && (x3 != "" ==> OccursAt(t, h3 + x3, at2))
  {
    FourPartOffsets(head, ContextLine(h1, x1), ContextLine(h2, x2), ContextLine(h3, x3));
  }

  /** Where each part of a four-part concatenation sits. */
  lemma FourPartOffsets(a: string, b: string, c: string, d: string)
    ensures var t := a + b + c + d;
      && |t| == |a| + |b| + |c| + |d|
      && OccursAt(t, b, |a|)
      && OccursAt(t, c, |a| + |b|)
      && OccursAt(t, d, |a| + |b| + |c|)
  {
    var t := a + b + c + d;
    assert t[|a|..|a| + |b|] == b;
    assert t[|a| + |b|..|a| + |b| + |c|] == c;
    assert t[|a| + |b| + |c|..|a| + |b| + |c| + |d|] == d;
  }

  /** Every non-empty context text appears in the prompt text. */
  lemma PromptContainsContext(g: AllTextGenerator, image: Image)
    ensures image.preceding_para_text != "" ==> Contains(g.PromptText(image), image.preceding_para_text)
    ensures image.succeeding_para_text != "" ==> Contains(g.PromptText(image), image.succeeding_para_text)
    ensures image.caption_text != "" ==> Contains(g.PromptText(image), image.caption_text)
  {
    LinesContained(PromptHead(image), PrecedingLabel, image.preceding_para_text, SucceedingLabel,
      image.succeeding_para_text, CaptionLabel, image.caption_text);
  }

  /** Each non-empty text of the three context lines appears in the whole. */
  lemma {:induction false} LinesContained(head: string, h1: string, x1: string, h2: string, x2: string, h3: string, x3: string)
    ensures var t := head + ContextLine(h1, x1) + ContextLine(h2, x2) + ContextLine(h3, x3);
      && (x1 != "" ==> Contains(t, x1))
      && (x2 != "" ==> Contains(t, x2))
      && (x3 != "" ==> Contains(t, x3))
  {
    var l1, l2, l3 := ContextLine(h1, x1), ContextLine(h2, x2), ContextLine(h3, x3);
    var t := head + l1 + l2 + l3;
    FourPartOffsets(head, l1, l2, l3);
    if x1 != "" {
      OccursInside(t, h1, x1, |head|);
    }
    if x2 != "" {
      OccursInside(t, h2, x2, |head| + |l1|);
    }
    if x3 != "" {
      OccursInside(t, h3, x3, |head| + |l1| + |l2|);
    }
  }

  lemma OccursInside(t: string, heading: string, text: string, at: nat)
    requires OccursAt(t, heading + text, at)
    ensures OccursAt(t, text, at + |heading|) && Contains(t, text)
  {
    assert t[at + |heading|..at + |heading| + |text|] == (heading + text)[|heading|..];
    var i: nat := at + |heading|;
    assert i <= |t| && OccursAt(t, text, i);
    ContainsIff(t, text);
  }

  /** The characters `html.escape(s, quote=True)` replaces, besides `&`. */
  predicate IsSpecial(c: char) {
    c == '<' || c == '>' || c == '"' || c == '\''
  }

  /** Whether `t` starts with one of the five entities `html.escape` writes. */
  predicate StartsEntity(t: string) {
    || StartsWith(t, "&amp;") || StartsWith(t, "&lt;") || StartsWith(t, "&gt;")
    || StartsWith(t, "&quot;") || StartsWith(t, "&#x27;")
  }

  /** Every `&` in `t` opens one of those entities: none is left raw. */
  predicate AmpsEscaped(t: string) {
    forall k :: 0 <= k < |t| && t[k] == '&' ==> StartsEntity(t[k..])
  }

  function EscapeChar(c: char): (r: string)
    ensures forall k :: 0 <= k < |r| ==> !IsSpecial(r[k])
    ensures AmpsEscaped(r)
    ensures r == [c] <==> !IsSpecial(c) && c != '&'
  {
    match c
    case '&' => EntityEscaped("&amp;"); "&amp;"
    case '<' => EntityEscaped("&lt;"); "&lt;"
    case '>' => EntityEscaped("&gt;"); "&gt;"
    case '"' => EntityEscaped("&quot;"); "&quot;"
    case '\'' => EntityEscaped("&#x27;"); "&#x27;"
    case _ => [c]
  }

  /** An entity, whose only `&` is its first character, leaves no `&` raw. */
  lemma EntityEscaped(e: string)
    requires StartsEntity(e)
    requires forall k :: 0 < k < |e| ==> e[k] != '&'
    ensures AmpsEscaped(e)
  {
    assert e[0..] == e;
  }

  /** `html.escape(s, quote=True)`. */
  function HtmlEscape(s: string): (r: string)
    ensures forall k :: 0 <= k < |r| ==> !IsSpecial(r[k])
    ensures AmpsEscaped(r)
  {
    if s == [] then []
    else
      AmpsEscapedConcat(EscapeChar(s[0]), HtmlEscape(s[1..]));
      EscapeChar(s[0]) + HtmlEscape(s[1..])
  }

  /** An entity at the start of `x` is still there once more text follows. */
  lemma StartsEntityExtends(x: string, y: string)
    requires StartsEntity(x)
    ensures StartsEntity(x + y)
  {
    forall e: string | StartsWith(x, e) ensures StartsWith(x + y, e) {
      assert (x + y)[..|e|] == x[..|e|];
    }
  }

  /** Escaped texts stay escaped when concatenated. */
  lemma {:induction false} AmpsEscapedConcat(a: string, b: string)
    requires AmpsEscaped(a) && AmpsEscaped(b)
    ensures AmpsEscaped(a + b)
  {
    forall k | 0 <= k < |a + b| && (a + b)[k] == '&' ensures StartsEntity((a + b)[k..]) {
      if k < |a| {
        assert a[k] == '&';
        assert (a + b)[k..] == a[k..] + b;
        StartsEntityExtends(a[k..], b);
      } else {
        assert b[k - |a|] == '&';
        assert (a + b)[k..] == b[k - |a|..];
      }
    }
  }

  /** Decoding of the five entities `HtmlEscape` produces; any other `&` stays as it is. */
  function HtmlUnescape(t: string): string {
    if t == [] then []
    else if StartsWith(t, "&amp;") then "&" + HtmlUnescape(t[5..])
    else if StartsWith(t, "&lt;") then "<" + HtmlUnescape(t[4..])
    else if StartsWith(t, "&gt;") then ">" + HtmlUnescape(t[4..])
    else if StartsWith(t, "&quot;") then "\"" + HtmlUnescape(t[6..])
    else if StartsWith(t, "&#x27;") then "'" + HtmlUnescape(t[6..])
    else [t[0]] + HtmlUnescape(t[1..])
  }

  /** Unescaping an escaped character followed by more text gives back the character,
      then the rest unescaped. */
  lemma UnescapeAfterChar(c: char, rest: string)
    ensures HtmlUnescape(EscapeChar(c) + rest) == [c] + HtmlUnescape(rest)
  {
    if c == '&' {
      assert EscapeChar(c) == "&amp;";
      UnescapeAmp(rest);
    } else if c == '<' {
      assert EscapeChar(c) == "&lt;";
      UnescapeLt(rest);
    } else if c == '>' {
      assert EscapeChar(c) == "&gt;";
      UnescapeGt(rest);
    } else if c == '"' {
      assert EscapeChar(c) == "&quot;";
      UnescapeQuot(rest);
    } else if c == '\'' {
      assert EscapeChar(c) == "&#x27;";
      UnescapeApos(rest);
    } else {
      assert EscapeChar(c) == [c];
      UnescapePlain(c, rest);
    }
  }

  lemma UnescapeAmp(rest: string)
    ensures HtmlUnescape("&amp;" + rest) == "&" + HtmlUnescape(rest)
  {
    var t := "&amp;" + rest;
    assert t[..5] == "&amp;" && t[5..] == rest;
  }

  lemma UnescapeLt(rest: string)
    ensures HtmlUnescape("&lt;" + rest) == "<" + HtmlUnescape(rest)
  {
    var t := "&lt;" + rest;
    assert t[..4] == "&lt;" && t[4..] == rest;
    assert !StartsWith(t, "&amp;") by { if |t| >= 5 { assert t[..5][1] == 'l'; } }
  }

  lemma UnescapeGt(rest: string)
    ensures HtmlUnescape("&gt;" + rest) == ">" + HtmlUnescape(rest)
  {
    var t := "&gt;" + rest;
    assert t[..4] == "&gt;" && t[4..] == rest;
    assert !StartsWith(t, "&amp;") by { if |t| >= 5 { assert t[..5][1] == 'g'; } }
    assert !StartsWith(t, "&lt;") by { assert t[..4][1] == 'g'; }
  }

  lemma UnescapeQuot(rest: string)
    ensures HtmlUnescape("&quot;" + rest) == "\"" + HtmlUnescape(rest)
  {
    var t := "&quot;" + rest;
    assert t[..6] == "&quot;" && t[6..] == rest;
    assert !StartsWith(t, "&amp;") by { assert t[..5][1] == 'q'; }
    assert !StartsWith(t, "&lt;") by { assert t[..4][1] == 'q'; }
    assert !StartsWith(t, "&gt;") by { assert t[..4][1] == 'q'; }
  }

  lemma UnescapeApos(rest: string)
    ensures HtmlUnescape("&#x27;" + rest) == "'" + HtmlUnescape(rest)
  {
    var t := "&#x27;" + rest;
    assert t[..6] == "&#x27;" && t[6..] == rest;
    assert !StartsWith(t, "&amp;") by { assert t[..5][1] == '#'; }
    assert !StartsWith(t, "&lt;") by { assert t[..4][1] == '#'; }
    assert !StartsWith(t, "&gt;") by { assert t[..4][1] == '#'; }
    assert !StartsWith(t, "&quot;") by { assert t[..6][1] == '#'; }
  }

  lemma UnescapePlain(c: char, rest: string)
    requires c != '&'
    ensures HtmlUnescape([c] + rest) == [c] + HtmlUnescape(rest)
  {
    var t := [c] + rest;
    assert t[0] == c && t[1..] == rest;
    assert !StartsWith(t, "&amp;") && !StartsWith(t, "&lt;") && !StartsWith(t, "&gt;");
    assert !StartsWith(t, "&quot;") && !StartsWith(t, "&#x27;");
  }

  /** The generated text's three properties fix it: a text with no raw special
      character and no raw `&` is the escape of what it unescapes to. */
  lemma {:induction false} EscapedIsEscape(t: string)
    requires forall k :: 0 <= k < |t| ==> !IsSpecial(t[k])
    requires AmpsEscaped(t)
    ensures HtmlEscape(HtmlUnescape(t)) == t
    decreases |t|
  {
    if t != [] {
      assert t[0..] == t;
      var c := LeadingChar(t);
      var e := EscapeChar(c);
      var rest := t[|e|..];
      assert t == e + rest;
      UnescapeAfterChar(c, rest);
      EscapedSuffix(t, |e|);
      EscapedIsEscape(rest);
      var u := [c] + HtmlUnescape(rest);
      assert u[0] == c && u[1..] == HtmlUnescape(rest);
    }
  }

  /** The character a non-empty escaped text starts with: itself, or the one whose
      entity opens the text. */
  lemma LeadingChar(t: string) returns (c: char)
    requires t != [] && !IsSpecial(t[0])
    requires t[0] == '&' ==> StartsEntity(t)
    ensures StartsWith(t, EscapeChar(c))
  {
    if t[0] != '&' {
      c := t[0];
      assert t[..1] == [c];
    } else if StartsWith(t, "&amp;") {
      c := '&';
    } else if StartsWith(t, "&lt;") {
      c := '<';
    } else if StartsWith(t, "&gt;") {
      c := '>';
    } else if StartsWith(t, "&quot;") {
      c := '"';
    } else {
      c := '\'';
    }
  }

  /** What follows a prefix of an escaped text is escaped too. */
  lemma EscapedSuffix(t: string, j: nat)
    requires j <= |t|
    requires forall k :: 0 <= k < |t| ==> !IsSpecial(t[k])
    requires AmpsEscaped(t)
    ensures forall k :: 0 <= k < |t[j..]| ==> !IsSpecial(t[j..][k])
    ensures AmpsEscaped(t[j..])
  {
    forall k | 0 <= k < |t[j..]| && t[j..][k] == '&' ensures StartsEntity(t[j..][k..]) {
      assert t[j + k] == '&';
      assert t[j..][k..] == t[j + k..];
    }
  }

  /** Unescaping undoes escaping: no text is lost or altered by the escape. */
  lemma {:induction false} EscapeRoundTrip(s: string)
    ensures HtmlUnescape(HtmlEscape(s)) == s
  {
    if s != [] {
      UnescapeAfterChar(s[0], HtmlEscape(s[1..]));
      EscapeRoundTrip(s[1..]);
    }
  }
}
