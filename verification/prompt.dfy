/**
 * `generate_prompt`: the instruction text sent as the user message of the chat
 * request. The schema text (`response_schema()`, a JSON-schema rendering done by
 * the validation library) is a parameter.
 *
 * The template is kept line by line, each line as it reads after the
 * four-space indentation of the source's triple-quoted f-string.
 */
module Prompt {

  const Indent: string := "    "
  const NewLine: string := "\n"

  const Intro: string := "You are a meticulous front-end engineer who delivers a single self-contained HTML document."
  const RequirementsHeader: string := "Requirements:"
  const RequireInlineCss: string := "- Inline CSS inside a <style> tag in the <head>"
  const RequireInlineJs: string := "- Inline JavaScript in a <script> tag at the end of <body>"
  const RequireResponsive: string := "- Responsive layout (mobile-friendly)"
  const RequireSemantic: string := "- Semantic HTML structure with clear sections"
  const RequireModernCss: string := "- Use modern CSS (flexbox or grid) and subtle animations"
  const RequirePalette: string := "- Include a distinct color palette, typography choices, and spacing scale"
  const RequireNoAssets: string := "- Avoid referencing external assets (fonts, images, CDNs). Use base64 data URIs if needed."
  const RequireComments: string := "- Comment tricky parts of CSS/JS"
  const RequireStandalone: string := "- Ensure the component works standalone when saved as index.html"
  const RequestHeader: string := "User request:"
  const OutputHeader: string := "Output format:"
  const TripleQuote: string := "\"\"\""
  const Doctype: string := "<!DOCTYPE html>"
  const HtmlOpen: string := "<html lang=\"en\">"
  const Ellipsis: string := "..."
  const HtmlClose: string := "</html>"
  const ProvideOnly: string := "Provide only the HTML file content, nothing else."
  const RespondStrictly: string := "Respond strictly as JSON matching this schema:"

  /** The template text before the user's message. */
  const PromptHead: string :=
    NewLine
    + Indent + Intro + NewLine
    + Indent + RequirementsHeader + NewLine
    + Indent + RequireInlineCss + NewLine
    + Indent + RequireInlineJs + NewLine
    + Indent + RequireResponsive + NewLine
    + Indent + RequireSemantic + NewLine
    + Indent + RequireModernCss + NewLine
    + Indent + RequirePalette + NewLine
    + Indent + RequireNoAssets + NewLine
    + Indent + RequireComments + NewLine
    + Indent + RequireStandalone + NewLine
    + NewLine
    + Indent + RequestHeader + NewLine
    + Indent

  /** The template text between the message and the schema. */
  const PromptMiddle: string :=
    NewLine
    + NewLine
    + Indent + OutputHeader + NewLine
    + Indent + TripleQuote + NewLine
    + Indent + Doctype + NewLine
    + Indent + HtmlOpen + NewLine
    + Indent + Ellipsis + NewLine
    + Indent + HtmlClose + NewLine
    + Indent + TripleQuote + NewLine
    + NewLine
    + Indent + ProvideOnly + NewLine
    + NewLine
    + Indent + RespondStrictly + NewLine
    + Indent

  /** The template text after the schema. */
  const PromptTail: string := NewLine + Indent

  /** The three fixed parts of a prompt template around its two holes. */
  datatype Template = Template(head: string, middle: string, tail: string)

  /** The template of `generate_prompt`. */
  const SourceTemplate: Template := Template(PromptHead, PromptMiddle, PromptTail)

  /** w occurs in p at position i. */
  predicate OccursAt(p: string, w: string, i: nat) {
    i + |w| <= |p| && p[i..i + |w|] == w
  }

  /** The middle part of a three-part concatenation sits right after the first. */
  lemma InMiddle(a: string, w: string, z: string)
    ensures OccursAt(a + w + z, w, |a|)
  {
    assert (a + w + z)[|a|..|a| + |w|] == w;
  }

  /** The f-string: the message in the first hole, the schema in the second. */
  function Fill(tpl: Template, message: string, schema: string): (p: string)
    ensures |p| == |tpl.head| + |message| + |tpl.middle| + |schema| + |tpl.tail|
    ensures OccursAt(p, message, |tpl.head|)
    ensures OccursAt(p, schema, |tpl.head| + |message| + |tpl.middle|)
  {
    var p := tpl.head + message + tpl.middle + schema + tpl.tail;
    InMiddle(tpl.head, message, tpl.middle + schema + tpl.tail);
    assert p == tpl.head + message + (tpl.middle + schema + tpl.tail);
    InMiddle(tpl.head + message + tpl.middle, schema, tpl.tail);
    p
  }

  /** `generate_prompt(message)`, with the rendered schema passed in. */
  function GeneratePrompt(message: string, schema: string): string {
    Fill(SourceTemplate, message, schema)
  }

  /** The message and the schema both appear verbatim, the message first. */
  lemma MessageBeforeSchema(tpl: Template, message: string, schema: string)
    ensures var p := Fill(tpl, message, schema);
            exists i: nat, j: nat :: i + |message| <= j && OccursAt(p, message, i) && OccursAt(p, schema, j)
  {
    var p := Fill(tpl, message, schema);
    assert OccursAt(p, message, |tpl.head|);
    assert OccursAt(p, schema, |tpl.head| + |message| + |tpl.middle|);
  }

  /** Nothing of the input is lost: knowing the message's length, the prompt gives
      back both the message and the schema. */
  lemma PromptDeterminesInputs(tpl: Template, m1: string, s1: string, m2: string, s2: string)
    requires |m1| == |m2|
    requires Fill(tpl, m1, s1) == Fill(tpl, m2, s2)
    ensures m1 == m2 && s1 == s2
  {
    var p := Fill(tpl, m1, s1);
    var h := |tpl.head|;
    assert m1 == p[h..h + |m1|];
    assert |s1| == |s2|;
    assert s1 == p[h + |m1| + |tpl.middle|..h + |m1| + |tpl.middle| + |s1|];
  }
}
