/** Text quoted into a Slack message, escaped so that it reads as written (src/surfaces/slack-markup.ts). */
module SlackMarkup {

  /** Every occurrence of one character replaced, as a global replace does. */
  function Replace(text: string, c: char, instead: string): string {
    if text == "" then "" else (if text[0] == c then instead else [text[0]]) + Replace(text[1..], c, instead)
  }

  /** The three replacements, ampersand first. */
  function SlackEscaped(text: string): string {
    Replace(Replace(Replace(text, '&', "&amp;"), '<', "&lt;"), '>', "&gt;")
  }

  function Entity(c: char): string {
    if c == '&' then "&amp;" else if c == '<' then "&lt;" else if c == '>' then "&gt;" else [c]
  }

  /** Each character on its own. */
  function EachEscaped(text: string): string {
    if text == "" then "" else Entity(text[0]) + EachEscaped(text[1..])
  }

  lemma {:induction false} ReplaceAppend(a: string, b: string, c: char, instead: string)
    ensures Replace(a + b, c, instead) == Replace(a, c, instead) + Replace(b, c, instead)
  {
    if a == "" {
      assert a + b == b;
    } else {
      assert (a + b)[1..] == a[1..] + b;
      ReplaceAppend(a[1..], b, c, instead);
    }
  }

  lemma {:induction false} ReplaceAbsent(text: string, c: char, instead: string)
    requires c !in text
    ensures Replace(text, c, instead) == text
  {
    if text != "" {
      ReplaceAbsent(text[1..], c, instead);
    }
  }

  lemma ReplaceOne(x: char, c: char, instead: string)
    ensures Replace([x], c, instead) == if x == c then instead else [x]
  {
    assert [x][1..] == "";
  }

  lemma EscapedOne(x: char)
    ensures SlackEscaped([x]) == Entity(x)
  {
    ReplaceOne(x, '&', "&amp;");
    if x == '&' {
      ReplaceAbsent("&amp;", '<', "&lt;");
      ReplaceAbsent("&amp;", '>', "&gt;");
    } else {
      ReplaceOne(x, '<', "&lt;");
      if x == '<' {
        ReplaceAbsent("&lt;", '>', "&gt;");
      } else {
        ReplaceOne(x, '>', "&gt;");
      }
    }
  }

  lemma EscapedAppend(a: string, b: string)
    ensures SlackEscaped(a + b) == SlackEscaped(a) + SlackEscaped(b)
  {
    var a1, b1 := Replace(a, '&', "&amp;"), Replace(b, '&', "&amp;");
    var a2, b2 := Replace(a1, '<', "&lt;"), Replace(b1, '<', "&lt;");
    ReplaceAppend(a, b, '&', "&amp;");
    ReplaceAppend(a1, b1, '<', "&lt;");
    ReplaceAppend(a2, b2, '>', "&gt;");
  }

  /** The three passes in their order are one pass over the characters: no pass rewrites what an earlier one wrote. */
  lemma {:induction false} PassesAreOnePass(text: string)
    ensures SlackEscaped(text) == EachEscaped(text)
  {
    if text != "" {
      assert text == [text[0]] + text[1..];
      EscapedAppend([text[0]], text[1..]);
      EscapedOne(text[0]);
      PassesAreOnePass(text[1..]);
    }
  }

  /** What Slack shows of an escaped text. */
  function Shown(text: string): string {
    if text == "" then ""
    else if "&amp;" <= text then "&" + Shown(text[5..])
    else if "&lt;" <= text then "<" + Shown(text[4..])
    else if "&gt;" <= text then ">" + Shown(text[4..])
    else [text[0]] + Shown(text[1..])
  }

  lemma ShownStep(x: char, rest: string)
    ensures Shown(Entity(x) + rest) == [x] + Shown(rest)
  {
    var text := Entity(x) + rest;
    if x == '&' {
      assert "&amp;" <= text && text[5..] == rest;
    } else if x == '<' {
      assert text[1] == 'l';
      assert "&lt;" <= text && text[4..] == rest;
    } else if x == '>' {
      assert text[1] == 'g';
      assert "&gt;" <= text && text[4..] == rest;
    } else {
      assert text[0] == x && text[1..] == rest;
    }
  }

  lemma {:induction false} EachShowsAsWritten(text: string)
    ensures Shown(EachEscaped(text)) == text
    ensures '<' !in EachEscaped(text) && '>' !in EachEscaped(text)
  {
    if text != "" {
      EachShowsAsWritten(text[1..]);
      ShownStep(text[0], EachEscaped(text[1..]));
    }
  }

  /** An escaped text shows as it was written, and carries nothing Slack reads as a mention or a link. */
  lemma EscapedShowsAsWritten(text: string)
    ensures Shown(SlackEscaped(text)) == text
    ensures '<' !in SlackEscaped(text) && '>' !in SlackEscaped(text)
  {
    PassesAreOnePass(text);
    EachShowsAsWritten(text);
  }
}
