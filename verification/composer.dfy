/** The document that renderPreview hands to the web view: the HTML buffer
    with the CSS buffer injected as a `<style>` block. */
module Composer {
  import opened Text

  const HeadOpen: string := "<head>"
  const HeadClose: string := "</head>"

  /** `<style>` + css + `</style>`. */
  function StyleBlock(css: string): string
  {
    "<style>" + css + "</style>"
  }

  /** What every `</head>` of the HTML is replaced by. */
  function InjectedClose(css: string): string
  {
    StyleBlock(css) + HeadClose
  }

  /** The head block put in front when the document still has no `<head>`. */
  function SynthesizedHead(css: string): string
  {
    HeadOpen + StyleBlock(css) + HeadClose
  }

  /** The HTML after the style block has been put before every `</head>`:
      unchanged when it has no `</head>`, never shorter. */
  function Replaced(html: string, css: string): (r: string)
    ensures !Contains(html, HeadClose) ==> r == html
    ensures |r| >= |html|
  {
    ReplaceAllNoMatch(html, HeadClose, InjectedClose(css));
    ReplaceAll(html, HeadClose, InjectedClose(css))
  }

  /** renderPreview: with empty CSS the HTML is shown as typed; otherwise the
      style block goes before every `</head>`, and a synthesized head block is
      prepended when the replaced text has no literal `<head>`. */
  function Compose(html: string, css: string): (doc: string)
    ensures css == [] ==> doc == html
  {
    if css == [] then html
    else
      var replaced := Replaced(html, css);
      if Contains(replaced, HeadOpen) then replaced else SynthesizedHead(css) + replaced
  }

  /** With CSS present, the output is the HTML cut at its `</head>` tags and
      glued back with the injected style block, optionally behind a
      synthesized head: all text between the tags is kept, in order. The
      head is left off exactly when that glued text has a `<head>`. */
  lemma ComposeInjectsBeforeEveryHeadClose(html: string, css: string, segs: seq<string>)
    requires css != []
    requires IsLeftmostSplit(html, HeadClose, segs)
    ensures var body := Join(segs, InjectedClose(css));
            Compose(html, css) == body || Compose(html, css) == SynthesizedHead(css) + body
    ensures Compose(html, css) == Join(segs, InjectedClose(css))
            <==> Contains(Join(segs, InjectedClose(css)), HeadOpen)
  {
    ReplaceAllSpec(html, HeadClose, InjectedClose(css), segs);
    var body := Join(segs, InjectedClose(css));
    if !Contains(body, HeadOpen) {
      assert |SynthesizedHead(css) + body| > |body|;
    }
  }

  /** The synthesized head is added exactly when the replaced text has no
      `<head>`; either way the replaced text ends the document. */
  lemma HeadAddedIffNoHeadAfterReplace(html: string, css: string)
    requires css != []
    ensures Compose(html, css) == SynthesizedHead(css) + Replaced(html, css)
            <==> !Contains(Replaced(html, css), HeadOpen)
    ensures Replaced(html, css) <= Compose(html, css)[|Compose(html, css)| - |Replaced(html, css)|..]
  {
    var r := Replaced(html, css);
    var doc := Compose(html, css);
    if Contains(r, HeadOpen) {
      assert |SynthesizedHead(css) + r| > |r|;
    } else {
      assert doc[|doc| - |r|..] == r;
    }
  }

  // Character facts about the tag: `<` only at its start, `>` only at its end.

  lemma HeadOpenChars(k: int)
    requires 0 <= k < |HeadOpen|
    ensures k > 0 ==> HeadOpen[k] != '<'
    ensures k < |HeadOpen| - 1 ==> HeadOpen[k] != '>'
  {
    assert HeadOpen == ['<', 'h', 'e', 'a', 'd', '>'];
  }

  /** `<head>` cannot straddle a boundary where the right part starts with
      `<` or the left part ends with `>`. */
  lemma ContainsHeadOpenConcat(a: string, b: string)
    requires (b != [] && b[0] == '<') || (a != [] && a[|a| - 1] == '>')
    ensures Contains(a + b, HeadOpen) <==> Contains(a, HeadOpen) || Contains(b, HeadOpen)
  {
    ContainsConcat(a, b, HeadOpen);
    ContainsIff(a + b, HeadOpen);
    if Contains(a + b, HeadOpen) {
      var i :| OccursAt(a + b, HeadOpen, i);
      NoStraddle(a, b, i);
      OccursInPart(a, b, HeadOpen, i);
    }
  }

  lemma NoStraddle(a: string, b: string, i: int)
    requires (b != [] && b[0] == '<') || (a != [] && a[|a| - 1] == '>')
    requires OccursAt(a + b, HeadOpen, i)
    ensures i + |HeadOpen| <= |a| || |a| <= i
  {
    var ab := a + b;
    if i < |a| < i + |HeadOpen| {
      assert ab[i..i + |HeadOpen|] == HeadOpen;
      if b != [] && b[0] == '<' {
        assert ab[|a|] == HeadOpen[|a| - i];
        HeadOpenChars(|a| - i);
      } else {
        assert ab[|a| - 1] == HeadOpen[|a| - 1 - i];
        HeadOpenChars(|a| - 1 - i);
      }
    }
  }

  /** One step of the search past a position where `<head>` does not start. */
  lemma SearchStep(s: string)
    requires |s| >= |HeadOpen| && !(s[0] == '<' && s[1] == 'h')
    ensures Contains(s, HeadOpen) == Contains(s[1..], HeadOpen)
  {
    assert HeadOpen[0] == '<' && HeadOpen[1] == 'h';
  }

  lemma LiteralsLackHeadOpen()
    ensures !Contains(HeadClose, HeadOpen)
    ensures !Contains("<style>", HeadOpen)
    ensures !Contains("</style>", HeadOpen)
  {
    var c: string := HeadClose;
    SearchStep(c);
    SearchStep(c[1..]);
    assert |c[1..][1..]| < |HeadOpen|;
    var o: string := "<style>";
    SearchStep(o);
    SearchStep(o[1..]);
    assert |o[1..][1..]| < |HeadOpen|;
    var e: string := "</style>";
    SearchStep(e);
    SearchStep(e[1..]);
    SearchStep(e[1..][1..]);
    assert |e[1..][1..][1..]| < |HeadOpen|;
  }

  /** The injected block holds a `<head>` exactly when the CSS text does. */
  lemma InjectedCloseContainsIff(css: string)
    ensures Contains(InjectedClose(css), HeadOpen) <==> Contains(css, HeadOpen)
  {
    LiteralsLackHeadOpen();
    var o: string := "<style>";
    var e: string := "</style>";
    ContainsHeadOpenConcat(o, css);
    ContainsHeadOpenConcat(o + css, e);
    ContainsHeadOpenConcat(o + css + e, HeadClose);
    ContainsHeadOpenConcat(e, HeadClose);
    assert InjectedClose(css) == o + css + e + HeadClose;
  }

  /** Some segment of the cut holds a `<head>`. */
  predicate SomeSegmentHasHeadOpen(segs: seq<string>)
  {
    exists i :: 0 <= i < |segs| && Contains(segs[i], HeadOpen)
  }

  /** A join with a separator bracketed by `<` and `>` holds `<head>` exactly
      when a segment does, or the separator does and is used at least once. */
  lemma {:induction false} JoinContainsHeadOpen(segs: seq<string>, sep: string)
    requires |segs| > 0
    requires sep != [] && sep[0] == '<' && sep[|sep| - 1] == '>'
    ensures Contains(Join(segs, sep), HeadOpen)
            <==> SomeSegmentHasHeadOpen(segs) || (|segs| > 1 && Contains(sep, HeadOpen))
    decreases |segs|
  {
    if |segs| > 1 {
      var rest := Join(segs[1..], sep);
      JoinContainsHeadOpen(segs[1..], sep);
      ContainsHeadOpenConcat(segs[0], sep);
      ContainsHeadOpenConcat(segs[0] + sep, rest);
      assert Join(segs, sep) == segs[0] + sep + rest;
      if SomeSegmentHasHeadOpen(segs[1..]) {
        var i :| 0 <= i < |segs[1..]| && Contains(segs[1..][i], HeadOpen);
        assert segs[i + 1] == segs[1..][i];
      }
      if SomeSegmentHasHeadOpen(segs) && !Contains(segs[0], HeadOpen) {
        var i :| 0 <= i < |segs| && Contains(segs[i], HeadOpen);
        assert segs[1..][i - 1] == segs[i];
      }
    } else {
      assert Join(segs, sep) == segs[0];
      if SomeSegmentHasHeadOpen(segs) {
        var i :| 0 <= i < |segs| && Contains(segs[i], HeadOpen);
        assert i == 0;
      }
    }
  }

  /** The condition of the synthesized head, in terms of the inputs: with
      CSS present, the head block is prepended exactly when the HTML has no
      literal `<head>` and either the HTML has no `</head>` or the CSS has no
      `<head>` of its own (each `</head>` brings a copy of the CSS along). */
  lemma HeadAddedIff(html: string, css: string)
    requires css != []
    ensures Compose(html, css) == SynthesizedHead(css) + Replaced(html, css)
            <==> !Contains(html, HeadOpen) && (!Contains(html, HeadClose) || !Contains(css, HeadOpen))
  {
    var segs := Split(html, HeadClose);
    SplitIsLeftmost(html, HeadClose);
    ReplaceAllSpec(html, HeadClose, InjectedClose(css), segs);
    LeftmostSplitOccurs(html, HeadClose, segs);
    LiteralsLackHeadOpen();
    JoinContainsHeadOpen(segs, HeadClose);
    JoinContainsHeadOpen(segs, InjectedClose(css));
    InjectedCloseContainsIff(css);
    HeadAddedIffNoHeadAfterReplace(html, css);
  }

  /** Length accounting with CSS present: each `</head>` grows the text by
      |css| + 15, the synthesized head adds |css| + 28. */
  lemma ComposeLength(html: string, css: string, segs: seq<string>)
    requires css != []
    requires IsLeftmostSplit(html, HeadClose, segs)
    ensures |Compose(html, css)|
            == |html| + (|segs| - 1) * (|css| + 15)
               + (if Contains(Replaced(html, css), HeadOpen) then 0 else |css| + 28)
  {
    ReplaceAllLength(html, HeadClose, InjectedClose(css), segs);
  }

  /** The quirk of checking `<head>` after the replacement: an HTML text with
      `</head>` but no literal `<head>` (say `<head lang="en">`) gets its
      style block twice, once in the synthesized head and once before its
      own `</head>`. */
  lemma StyleInjectedTwice(html: string, css: string)
    requires css != [] && !Contains(css, HeadOpen)
    requires Contains(html, HeadClose) && !Contains(html, HeadOpen)
    ensures OccursAt(Compose(html, css), StyleBlock(css), |HeadOpen|)
    ensures exists j :: |SynthesizedHead(css)| <= j && OccursAt(Compose(html, css), StyleBlock(css), j)
  {
    HeadAddedIff(html, css);
    var sh := SynthesizedHead(css);
    var sb := StyleBlock(css);
    var r := Replaced(html, css);
    OccursBetween(HeadOpen, sb, HeadClose + r);
    assert HeadOpen + sb + (HeadClose + r) == sh + r;
    var i := StyleBlockInReplaced(html, css);
    OccursShift(sh, r, sb, i);
  }

  /** Once the HTML has a `</head>`, the replaced text holds the style block. */
  lemma StyleBlockInReplaced(html: string, css: string) returns (i: nat)
    requires Contains(html, HeadClose)
    ensures OccursAt(Replaced(html, css), StyleBlock(css), i)
  {
    var segs := Split(html, HeadClose);
    SplitIsLeftmost(html, HeadClose);
    ReplaceAllSpec(html, HeadClose, InjectedClose(css), segs);
    LeftmostSplitOccurs(html, HeadClose, segs);
    JoinSeparatorOccurs(segs, InjectedClose(css));
    OccursPrefix(Replaced(html, css), StyleBlock(css), HeadClose, |segs[0]|);
    i := |segs[0]|;
  }
}
