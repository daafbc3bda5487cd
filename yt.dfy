/** The summariser script: it pulls a video id out of a watch URL, joins the
    caption fragments returned by the transcript service into one text, builds
    the instruction prompt from the sidebar settings, shows a thumbnail, and
    asks the generative service for a summary only when there is a transcript.
    The two services are parameters: total functions whose `None` stands for
    "the call raised". */
module YouTube {
  import opened PyStr

  // ---------------------------------------------------------------------
  // Video-id extraction: `url.split("v=")[1].split("&")[0]`
  // ---------------------------------------------------------------------

  /** Outcome of the extraction expression: an id, or the `IndexError` that
      `[1]` raises when the URL holds no "v=". */
  datatype IdResult = VideoId(id: string) | IndexError

  function ExtractVideoId(url: string): (r: IdResult)
    ensures r.IndexError? <==> !Contains(url, "v=")
  {
    var parts := Split(url, "v=");
    SplitSingle(url, "v=");
    if |parts| < 2 then IndexError else VideoId(Split(parts[1], "&")[0])
  }

  /** Position `e` of `url` ends an id: the end of the string, an "&", or the
      start of another "v=". */
  predicate IdEnds(url: string, e: int) {
    e == |url| || (0 <= e < |url| && url[e] == '&') || OccursAt(url, "v=", e)
  }

  /** `id` stands in `url` at `start`, contains neither "&" nor "v=", and is
      followed by an end of id. */
  predicate IdAt(url: string, start: nat, id: string) {
    && OccursAt(url, id, start)
    && !Contains(id, "&")
    && !Contains(id, "v=")
    && IdEnds(url, start + |id|)
  }

  /** At most one string satisfies `IdAt` at a given start. */
  lemma IdAtUnique(url: string, start: nat, a: string, b: string)
    requires IdAt(url, start, a) && IdAt(url, start, b) && |a| <= |b|
    ensures a == b
  {
    assert url[start..start + |b|] == b;
    assert a == b[..|a|] by {
      assert url[start..start + |a|] == url[start..start + |b|][..|a|];
    }
    if |a| < |b| {
      var e := start + |a|;
      assert b[|a|] == url[e];
      if url[e] == '&' {
        OccursAtChar(b, '&', |a|);
      } else {
        OccursAtMarker(url, e);
        OccursAtMarker(url, e + 1);
        OccursAtMarker(b, |a|);
      }
    }
  }

  /** "v=" occurs at `j` exactly when a 'v' stands there followed by '='. */
  lemma OccursAtMarker(s: string, j: int)
    ensures OccursAt(s, "v=", j) <==> 0 <= j && j + 1 < |s| && s[j] == 'v' && s[j + 1] == '='
  {
    if 0 <= j && j + 1 < |s| {
      assert s[j..j + 2] == [s[j], s[j + 1]];
    }
  }

  /** When the first "v=" of `url` is at `i`, extraction succeeds, "v=" + id
      stands at `i`, and the id is what `IdAt` describes: it runs from just
      after that "v=" up to the first "&", the next "v=" or the end. */
  lemma ExtractVideoIdShape(url: string, i: nat)
    requires FirstOccurrence(url, "v=", i)
    ensures ExtractVideoId(url).VideoId?
    ensures IdAt(url, i + 2, ExtractVideoId(url).id)
    ensures OccursAt(url, "v=" + ExtractVideoId(url).id, i)
  {
    SplitSecond(url, "v=", i);
    var id := Split(Split(url[i + 2..], "v=")[0], "&")[0];
    assert ExtractVideoId(url) == VideoId(id);
    HeadPieceShape(url, i);
  }

  /** The "&"-head of the "v="-head of the text after the first "v=" is what
      `IdAt` describes there. */
  lemma HeadPieceShape(url: string, i: nat)
    requires FirstOccurrence(url, "v=", i)
    ensures var id := Split(Split(url[i + 2..], "v=")[0], "&")[0];
      IdAt(url, i + 2, id) && OccursAt(url, "v=" + id, i)
  {
    var t := url[i + 2..];
    var p := Split(t, "v=")[0];
    SplitHead(t, "v=");
    var id := Split(p, "&")[0];
    SplitHead(p, "&");
    HeadOfHead(t, p, id);
    OccursAtDrop(url, id, i + 2, 0);
    IdEndsDrop(url, i + 2, |id|);
    OccursAtAppend(url, "v=", id, i);
  }

  /** The first "&"-piece `id` of the first "v="-piece `p` of `t` stands at
      the start of `t`, has no "v=" either, and ends where an id ends. */
  lemma HeadOfHead(t: string, p: string, id: string)
    requires |p| <= |t| && t[..|p|] == p && !Contains(p, "v=") && (p == t || OccursAt(t, "v=", |p|))
    requires |id| <= |p| && p[..|id|] == id && !Contains(id, "&") && (id == p || OccursAt(p, "&", |id|))
    ensures OccursAt(t, id, 0) && !Contains(id, "v=") && IdEnds(t, |id|)
  {
    NotContainsTake(p, "v=", |id|);
    assert t[..|id|] == t[..|p|][..|id|];
    if id != p {
      OccursAtTake(t, "&", |p|, |id|);
      OccursAtChar(t, '&', |id|);
    }
  }

  lemma IdEndsDrop(url: string, k: nat, e: nat)
    requires k <= |url|
    ensures IdEnds(url[k..], e) <==> IdEnds(url, k + e)
  {
    OccursAtDrop(url, "v=", k, e);
    if e < |url| - k {
      assert url[k..][e] == url[k + e];
    }
  }

  /** The converse: any `id` that `IdAt` places right after the first "v=" is
      the one extraction returns. */
  lemma ExtractVideoIdExactly(url: string, i: nat, id: string)
    requires FirstOccurrence(url, "v=", i)
    requires IdAt(url, i + 2, id)
    ensures ExtractVideoId(url) == VideoId(id)
  {
    ExtractVideoIdShape(url, i);
    var got := ExtractVideoId(url).id;
    if |got| <= |id| {
      IdAtUnique(url, i + 2, got, id);
    } else {
      IdAtUnique(url, i + 2, id, got);
    }
  }

  /** A "v=" followed at once by "&", by another "v=" or by the end of the
      URL yields the empty id; it is not an error. */
  lemma EmptyIdAfterMarker(url: string, i: nat)
    requires FirstOccurrence(url, "v=", i)
    requires IdEnds(url, i + 2)
    ensures ExtractVideoId(url) == VideoId("")
  {
    assert !Contains("", "&") && !Contains("", "v=");
    assert OccursAt(url, "", i + 2);
    ExtractVideoIdExactly(url, i, "");
  }

  /** A URL `pre + "v=" + id + rest` whose `pre` holds no "v=" and whose `id`
      holds neither "v=" nor '&' yields `id` whenever `rest` is empty or starts
      with "&" or with a second "v=". */
  lemma ExtractFromWatchUrl(pre: string, id: string, rest: string)
    requires !Contains(pre, "v=") && !Contains(id, "v=") && '&' !in id
    requires rest == "" || rest[0] == '&' || (|rest| >= 2 && rest[..2] == "v=")
    ensures ExtractVideoId(pre + "v=" + id + rest) == VideoId(id)
  {
    var url := pre + "v=" + id + rest;
    var i := |pre|;
    assert url[i..i + 2] == "v=";
    forall j | 0 <= j < i ensures !OccursAt(url, "v=", j) {
      OccursAtMarker(url, j);
      OccursAtMarker(pre, j);
      assert url[j] == pre[j];
      if j + 1 < i {
        assert url[j + 1] == pre[j + 1];
      } else {
        assert url[j + 1] == 'v';
      }
    }
    assert FirstOccurrence(url, "v=", i);
    assert url[i + 2..i + 2 + |id|] == id;
    MissingFirstChar(id, "&");
    var e := i + 2 + |id|;
    if rest != "" && rest[0] != '&' {
      assert url[e..e + 2] == rest[..2];
    }
    assert IdEnds(url, e);
    ExtractVideoIdExactly(url, i, id);
  }

  // The URL is a parameter fixed by `requires`: a literal in the body would make
  // Dafny unroll `Split` and `Find` on it character by character.
  lemma ExampleWatchUrlWithTime(url: string)
    requires url == "https://www.youtube.com/watch?v=abc123&t=5s"
    ensures ExtractVideoId(url) == VideoId("abc123")
  {
    var pre := "https://www.youtube.com/watch?";
    assert url == pre + "v=" + "abc123" + "&t=5s";
    MissingFirstChar(pre, "v=");
    MissingFirstChar("abc123", "v=");
    ExtractFromWatchUrl(pre, "abc123", "&t=5s");
  }

  // The URL is a parameter fixed by `requires`: a literal in the body would make
  // Dafny unroll `Split` and `Find` on it character by character.
  lemma ExampleSecondMarkerTruncates(url: string)
    requires url == "watch?v=abcv=def"
    ensures ExtractVideoId(url) == VideoId("abc")
  {
    assert url == "watch?" + "v=" + "abc" + "v=def";
    MissingFirstChar("watch?", "v=");
    MissingFirstChar("abc", "v=");
    ExtractFromWatchUrl("watch?", "abc", "v=def");
  }

  // The URL is a parameter fixed by `requires`: a literal in the body would make
  // Dafny unroll `Split` and `Find` on it character by character.
  lemma ExampleEmptyId(url: string)
    requires url == "watch?v=&t=5"
    ensures ExtractVideoId(url) == VideoId("")
  {
    assert url == "watch?" + "v=" + "" + "&t=5";
    MissingFirstChar("watch?", "v=");
    ExtractFromWatchUrl("watch?", "", "&t=5");
  }

  /** The short-link form carries no "v=", so extraction raises. The URL is a
      parameter for the same reason as above. */
  lemma ExampleShortLinkFails(url: string)
    requires url == "https://youtu.be/abc123"
    ensures ExtractVideoId(url) == IndexError
  {
    MissingFirstChar(url, "v=");
  }

  // ---------------------------------------------------------------------
  // Transcript assembly: `" ".join([item["text"] for item in data])`
  // ---------------------------------------------------------------------

  /** One timed caption unit; only its text is used. */
  datatype Fragment = Fragment(text: string, start: real, duration: real)

  /** The list comprehension over the fragments. */
  function Texts(fragments: seq<Fragment>): (r: seq<string>)
    ensures |r| == |fragments|
    ensures forall k :: 0 <= k < |r| ==> r[k] == fragments[k].text
  {
    seq(|fragments|, k requires 0 <= k < |fragments| => fragments[k].text)
  }

  function Transcript(fragments: seq<Fragment>): (r: string)
    ensures fragments == [] ==> r == ""
    ensures fragments != [] ==> |r| >= |fragments[0].text| && r[..|fragments[0].text|] == fragments[0].text
  {
    Join(Texts(fragments), " ")
  }

  /** n >= 1 fragments make a transcript as long as their texts plus n - 1
      separating spaces. */
  lemma TranscriptLength(fragments: seq<Fragment>)
    requires |fragments| >= 1
    ensures |Transcript(fragments)| == TotalLength(Texts(fragments)) + |fragments| - 1
  {
    JoinLength(Texts(fragments), " ");
  }

  /** When no fragment text holds a space, the transcript has exactly n - 1
      spaces and splitting it on " " gives back the texts in received order. */
  lemma TranscriptKeepsOrder(fragments: seq<Fragment>)
    requires |fragments| >= 1
    requires forall k :: 0 <= k < |fragments| ==> ' ' !in fragments[k].text
    ensures Count(Transcript(fragments), ' ') == |fragments| - 1
    ensures Split(Transcript(fragments), " ") == Texts(fragments)
  {
    var texts := Texts(fragments);
    assert forall k :: 0 <= k < |texts| ==> ' ' !in texts[k];
    JoinCountsSeparators(texts, ' ');
    SplitJoin(texts, ' ');
  }

  /** Fragments keep their received order whatever their texts hold: a later
      fragment's text is appended after a space. */
  lemma TranscriptSnoc(fragments: seq<Fragment>, f: Fragment)
    requires |fragments| >= 1
    ensures Transcript(fragments + [f]) == Transcript(fragments) + " " + f.text
  {
    assert Texts(fragments + [f]) == Texts(fragments) + [f.text];
    JoinSnoc(Texts(fragments), f.text, " ");
  }

  /** The transcript is empty exactly for no fragments or a single fragment
      with empty text; two or more fragments always leave a space. */
  lemma EmptyTranscriptExactly(fragments: seq<Fragment>)
    ensures Transcript(fragments) == "" <==>
      fragments == [] || (|fragments| == 1 && fragments[0].text == "")
  {
    if |fragments| == 1 {
      assert Texts(fragments) == [fragments[0].text];
    } else if |fragments| >= 2 {
      TranscriptLength(fragments);
    }
  }

  lemma TranscriptExample(a: Fragment, b: Fragment, c: Fragment)
    requires a.text == "a" && b.text == "b" && c.text == "c"
    ensures Transcript([a, b, c]) == "a b c"
  {
    var texts := Texts([a, b, c]);
    assert texts == ["a"] + (["b"] + ["c"]);
    JoinCons("b", ["c"], " ");
    JoinCons("a", ["b"] + ["c"], " ");
  }

  // ---------------------------------------------------------------------
  // Prompt construction
  // ---------------------------------------------------------------------

  const BasePrompt: string :=
    "\n"
    + "You are an expert summarizer specifically trained for YouTube videos. Your task is to create comprehensive and clear summaries based on the transcript provided. For each video, ensure to include:\n"
    + "\n"
    + "1. **Key Points**: Identify and outline the most important ideas discussed.\n"
    + "2. **Conclusions**: Highlight any significant conclusions or recommendations made by the speaker(s).\n"
    + "3. **Insights**: Note any notable facts, figures, or insights that are shared throughout the video.\n"
    + "\n"
    + "The output should be tailored to the requested format. When creating bullet points, ensure that each point is succinct and clear. When creating a paragraph, maintain a coherent flow, linking ideas together logically.\n"
    + "\n"
    + "Here is the text to summarize:\n"

  const BulletLead: string :=
    " Please " + "summarize" + " the following transcript in bullet points, keeping it concise and within "
  const ParagraphLead: string :=
    " Please " + "provide" + " a coherent single paragraph summary, strictly avoiding bullet points, maintaining a formal tone, and staying within "
  const WordsTail: string := " words."

  const BulletFormat: string := "Bullet Points"
  const ParagraphFormat: string := "Paragraph"

  /** The values the word-count slider can take: 50 to 5000 in steps of 50. */
  type WordCount = n: nat | 50 <= n <= 5000 && n % 50 == 0 witness 250

  /** The format-dependent clause with the word count written in decimal. */
  function Clause(lead: string, words: nat): string {
    lead + DecimalString(words) + WordsTail
  }

  /** The prompt the `if`/`elif` binds, on top of the base text `base`;
      `None` when the format is neither option, in which case `prompt` stays
      unbound. */
  function BuildPrompt(base: string, words: WordCount, format: string): (r: Option<string>)
    ensures r.Some? <==> format == BulletFormat || format == ParagraphFormat
    ensures r.Some? ==> |base| <= |r.value| && r.value[..|base|] == base
    ensures r.Some? ==> Contains(r.value, DecimalString(words))
  {
    var lead := if format == BulletFormat then BulletLead else ParagraphLead;
    ClauseOnBase(base, lead, words);
    if format == BulletFormat || format == ParagraphFormat then Some(base + Clause(lead, words)) else None
  }

  lemma ClauseOnBase(base: string, lead: string, words: nat)
    ensures var p := base + Clause(lead, words);
      && |base| <= |p| && p[..|base|] == base
      && Contains(p, DecimalString(words))
  {
    var p := base + Clause(lead, words);
    assert p[..|base|] == base;
    assert p == (base + lead) + DecimalString(words) + WordsTail;
    assert OccursAt(p, DecimalString(words), |base| + |lead|);
  }

  /** The script's prompt: `BuildPrompt` on the script's base text. The
      prompt lemmas below are stated for any base text; this is the instance
      the script uses, and `ScriptPromptSettings` applies them to it. */
  function ScriptPrompt(words: WordCount, format: string): (r: Option<string>)
    ensures r.Some? <==> format == BulletFormat || format == ParagraphFormat
    ensures r.Some? ==> |BasePrompt| <= |r.value| && r.value[..|BasePrompt|] == BasePrompt
  {
    BuildPrompt(BasePrompt, words, format)
  }

  /** Reads the word count back from a clause that starts with `lead`. */
  function ReadClause(c: string, lead: string): Option<nat> {
    if |c| >= |lead| + |WordsTail| && c[..|lead|] == lead
       && c[|c| - |WordsTail|..] == WordsTail && AllDigits(c[|lead|..|c| - |WordsTail|])
    then Some(ParseDecimal(c[|lead|..|c| - |WordsTail|]))
    else None
  }

  /** Reads the settings (word count and format) back from a prompt built on
      `base`. */
  function PromptSettings(base: string, p: string): Option<(nat, string)> {
    if |p| < |base| || p[..|base|] != base then None
    else
      var c := p[|base|..];
      match ReadClause(c, BulletLead)
      case Some(n) => Some((n, BulletFormat))
      case None =>
        match ReadClause(c, ParagraphLead)
        case Some(n) => Some((n, ParagraphFormat))
        case None => None
  }

  lemma ReadOwnClause(lead: string, words: nat)
    ensures ReadClause(Clause(lead, words), lead) == Some(words)
  {
    var c := Clause(lead, words);
    var d := DecimalString(words);
    assert c[..|lead|] == lead;
    assert c[|c| - |WordsTail|..] == WordsTail;
    assert c[|lead|..|c| - |WordsTail|] == d;
    ParseDecimalString(words);
  }

  /** A paragraph clause is never read as a bullet clause. */
  lemma ParagraphIsNotBullet(words: nat)
    ensures ReadClause(Clause(ParagraphLead, words), BulletLead) == None
  {
    var c := Clause(ParagraphLead, words);
    assert |ParagraphLead| > 8 && ParagraphLead[8] == 'p';
    assert c == ParagraphLead + (DecimalString(words) + WordsTail);
    assert c[8] == 'p';
    assert |BulletLead| > 8 && BulletLead[8] == 's';
    if |c| >= |BulletLead| {
      assert c[..|BulletLead|][8] == c[8];
    }
  }

  /** The prompt determines both settings: reading them back from it gives
      the word count and the format it was built from. */
  lemma PromptSettingsRoundTrip(base: string, words: WordCount, format: string)
    requires BuildPrompt(base, words, format).Some?
    ensures PromptSettings(base, BuildPrompt(base, words, format).value) == Some((words as nat, format))
  {
    var p := BuildPrompt(base, words, format).value;
    if format == BulletFormat {
      assert p[|base|..] == Clause(BulletLead, words);
      ReadOwnClause(BulletLead, words);
    } else {
      assert p[|base|..] == Clause(ParagraphLead, words);
      ParagraphIsNotBullet(words);
      ReadOwnClause(ParagraphLead, words);
    }
  }

  /** The script's own prompt carries both settings after the base text. */
  lemma ScriptPromptSettings(words: WordCount, format: string)
    requires format == BulletFormat || format == ParagraphFormat
    ensures PromptSettings(BasePrompt, ScriptPrompt(words, format).value) == Some((words as nat, format))
  {
    PromptSettingsRoundTrip(BasePrompt, words, format);
  }

  /** Different settings give different prompts. */
  lemma BuildPromptInjective(base: string, w1: WordCount, f1: string, w2: WordCount, f2: string)
    requires BuildPrompt(base, w1, f1).Some? && BuildPrompt(base, w1, f1) == BuildPrompt(base, w2, f2)
    ensures w1 == w2 && f1 == f2
  {
    PromptSettingsRoundTrip(base, w1, f1);
    PromptSettingsRoundTrip(base, w2, f2);
  }

  lemma DecimalExamples()
    ensures DecimalString(100) == "100" && DecimalString(300) == "300"
  {
    assert DecimalString(1) == "1" && DecimalString(3) == "3";
    assert DecimalString(10) == "10" && DecimalString(30) == "30";
  }

  /** "Paragraph" with 100 words gives the paragraph clause and "100";
      "Bullet Points" with 300 words gives the bullet clause and "300". */
  lemma PromptExamples(base: string, w100: WordCount, w300: WordCount)
    requires w100 == 100 && w300 == 300
    ensures BuildPrompt(base, w100, ParagraphFormat).Some? && BuildPrompt(base, w300, BulletFormat).Some?
    ensures OccursAt(BuildPrompt(base, w100, ParagraphFormat).value, ParagraphLead + "100", |base|)
    ensures OccursAt(BuildPrompt(base, w300, BulletFormat).value, BulletLead + "300", |base|)
  {
    DecimalExamples();
    var p := BuildPrompt(base, w100, ParagraphFormat).value;
    assert p == base + (ParagraphLead + "100") + WordsTail;
    var q := BuildPrompt(base, w300, BulletFormat).value;
    assert q == base + (BulletLead + "300") + WordsTail;
  }

  /** The text sent for generation: the prompt, then the transcript, with
      nothing in between. */
  function FinalPrompt(prompt: string, transcript: string): (r: string)
    ensures |r| == |prompt| + |transcript|
    ensures r[..|prompt|] == prompt && r[|prompt|..] == transcript
  {
    prompt + transcript
  }

  // ---------------------------------------------------------------------
  // Thumbnail
  // ---------------------------------------------------------------------

  const ThumbnailHost: string := "http://img.youtube.com/vi/"
  const ThumbnailFile: string := "/0.jpg"

  function ThumbnailUrl(id: string): (r: string)
    ensures |r| == |ThumbnailHost| + |id| + |ThumbnailFile|
    ensures r[..|ThumbnailHost|] == ThumbnailHost
    ensures r[|ThumbnailHost|..|ThumbnailHost| + |id|] == id
    ensures r[|ThumbnailHost| + |id|..] == ThumbnailFile
  {
    var r := ThumbnailHost + id + ThumbnailFile;
    assert r[|ThumbnailHost|..|ThumbnailHost| + |id|] == id;
    r
  }

  /** What the thumbnail block shows: nothing for an empty link, the image for
      an extracted id, or the invalid-link error. */
  datatype Thumbnail = NoLink | Image(src: string) | InvalidLink

  function ShowThumbnail(link: string): (r: Thumbnail)
    ensures r == NoLink <==> link == ""
    ensures r == InvalidLink <==> link != "" && !Contains(link, "v=")
    ensures r.Image? ==> |r.src| >= |ThumbnailHost| + |ThumbnailFile|
  {
    if link == "" then NoLink
    else match ExtractVideoId(link)
      case IndexError => InvalidLink
      case VideoId(id) => Image(ThumbnailUrl(id))
  }

  /** The thumbnail shows the id that extraction describes. */
  lemma ThumbnailShowsVideoId(link: string, i: nat, id: string)
    requires FirstOccurrence(link, "v=", i) && IdAt(link, i + 2, id)
    ensures ShowThumbnail(link) == Image(ThumbnailUrl(id))
  {
    ExtractVideoIdExactly(link, i, id);
  }

  // ---------------------------------------------------------------------
  // The button: transcript, then generation
  // ---------------------------------------------------------------------

  /** `extract_transcript_details`: `None` when extraction or the transcript
      service raises. */
  function ExtractTranscriptDetails(url: string, fetch: string -> Option<seq<Fragment>>): (r: Option<string>)
    ensures r.Some? <==> ExtractVideoId(url).VideoId? && fetch(ExtractVideoId(url).id).Some?
    ensures !Contains(url, "v=") ==> r == None
    ensures r.Some? ==> r.value == Transcript(fetch(ExtractVideoId(url).id).value)
  {
    match ExtractVideoId(url)
    case IndexError => None
    case VideoId(id) =>
      match fetch(id)
      case None => None
      case Some(fragments) => Some(Transcript(fragments))
  }

  /** Python truthiness of the transcript value: neither `None` nor "". */
  predicate Truthy(t: Option<string>) {
    t.Some? && t.value != ""
  }

  /** `generate_gemini_content`: one call to the generation service on the
      final prompt. */
  function GenerateGeminiContent(transcript: string, prompt: string, generate: string -> Option<string>): (r: Option<string>)
    ensures r == generate(FinalPrompt(prompt, transcript))
  {
    generate(FinalPrompt(prompt, transcript))
  }

  /** What the page shows after the button. */
  datatype Display = Nothing | Notes(summary: string) | PromptUnbound

  /** One button press: the transcript value, the text sent for generation
      (`None` when generation is not invoked) and what is shown. */
  datatype Run = Run(transcript: Option<string>, request: Option<string>, display: Display)

  function GetDetailedNotes(link: string, prompt: Option<string>,
                            fetch: string -> Option<seq<Fragment>>,
                            generate: string -> Option<string>): (r: Run)
    ensures r.transcript == ExtractTranscriptDetails(link, fetch)
    ensures r.request.Some? <==> Truthy(r.transcript) && prompt.Some?
    ensures r.request.Some? ==> r.request.value == FinalPrompt(prompt.value, r.transcript.value)
    ensures r.display.Notes? <==> r.request.Some? && Truthy(generate(r.request.value))
    ensures r.display.Notes? ==> generate(r.request.value) == Some(r.display.summary)
    ensures r.display == PromptUnbound <==> Truthy(r.transcript) && prompt.None?
  {
    var t := ExtractTranscriptDetails(link, fetch);
    if !Truthy(t) then Run(t, None, Nothing)
    else if prompt.None? then Run(t, None, PromptUnbound)
    else
      var summary := GenerateGeminiContent(t.value, prompt.value, generate);
      Run(t, Some(FinalPrompt(prompt.value, t.value)), if Truthy(summary) then Notes(summary.value) else Nothing)
  }

  /** A link without "v=" reaches neither service: the outcome is the same
      whatever either service would answer. */
  lemma NoServiceCallOnInvalidLink(link: string, prompt: Option<string>,
                                   f1: string -> Option<seq<Fragment>>, f2: string -> Option<seq<Fragment>>,
                                   g1: string -> Option<string>, g2: string -> Option<string>)
    requires !Contains(link, "v=")
    ensures GetDetailedNotes(link, prompt, f1, g1) == GetDetailedNotes(link, prompt, f2, g2) == Run(None, None, Nothing)
  {
  }

  /** Without a truthy transcript the generation service is not consulted. */
  lemma NoGenerationWithoutTranscript(link: string, prompt: Option<string>,
                                      fetch: string -> Option<seq<Fragment>>,
                                      g1: string -> Option<string>, g2: string -> Option<string>)
    requires !Truthy(ExtractTranscriptDetails(link, fetch))
    ensures GetDetailedNotes(link, prompt, fetch, g1) == GetDetailedNotes(link, prompt, fetch, g2)
    ensures GetDetailedNotes(link, prompt, fetch, g1).display == Nothing
  {
  }

  /** No fragments, or one fragment with empty text, give the empty
      transcript, which suppresses generation just as a failed fetch does. */
  lemma EmptyTranscriptSuppressesGeneration(link: string, prompt: Option<string>,
                                            fetch: string -> Option<seq<Fragment>>,
                                            generate: string -> Option<string>, f: Fragment)
    requires ExtractVideoId(link).VideoId?
    requires fetch(ExtractVideoId(link).id) == Some([]) || fetch(ExtractVideoId(link).id) == Some([f])
    requires f.text == ""
    ensures GetDetailedNotes(link, prompt, fetch, generate).request == None
    ensures GetDetailedNotes(link, prompt, fetch, generate).display == Nothing
  {
    assert Texts([f]) == [""];
  }

  /** When the service answers for the extracted id, generation is invoked
      exactly unless the answer is no fragments or one empty fragment. */
  lemma GenerationRunsExactly(link: string, prompt: string,
                              fetch: string -> Option<seq<Fragment>>,
                              generate: string -> Option<string>, fragments: seq<Fragment>)
    requires ExtractVideoId(link).VideoId?
    requires fetch(ExtractVideoId(link).id) == Some(fragments)
    ensures GetDetailedNotes(link, Some(prompt), fetch, generate).request.Some? <==>
      !(fragments == [] || (|fragments| == 1 && fragments[0].text == ""))
  {
    EmptyTranscriptExactly(fragments);
  }

  /** Two fragments with empty texts join to a single space, which is truthy:
      generation runs on the prompt followed by that space. */
  lemma EmptyFragmentsStillGenerate(link: string, prompt: string,
                                    fetch: string -> Option<seq<Fragment>>,
                                    generate: string -> Option<string>, f: Fragment, g: Fragment)
    requires ExtractVideoId(link).VideoId?
    requires fetch(ExtractVideoId(link).id) == Some([f, g])
    requires f.text == "" && g.text == ""
    ensures GetDetailedNotes(link, Some(prompt), fetch, generate).request == Some(prompt + " ")
  {
    TwoFragments(f, g);
    assert f.text + " " + g.text == " ";
  }

  /** With the prompt of the sidebar settings, the text sent for generation is
      the base text, then the format clause that carries both settings, then
      the transcript. */
  lemma RequestCarriesPromptAndTranscript(link: string, base: string, words: WordCount, format: string,
                                          fetch: string -> Option<seq<Fragment>>,
                                          generate: string -> Option<string>)
    requires format == BulletFormat || format == ParagraphFormat
    requires Truthy(ExtractTranscriptDetails(link, fetch))
    ensures var r := GetDetailedNotes(link, BuildPrompt(base, words, format), fetch, generate);
      && r.request.Some?
      && |base| <= |r.request.value| && r.request.value[..|base|] == base
      && PromptSettings(base, r.request.value[..|r.request.value| - |r.transcript.value|]) == Some((words as nat, format))
  {
    var prompt := BuildPrompt(base, words, format).value;
    var r := GetDetailedNotes(link, BuildPrompt(base, words, format), fetch, generate);
    var req := r.request.value;
    assert req == prompt + r.transcript.value;
    assert req[..|req| - |r.transcript.value|] == prompt;
    assert req[..|base|] == prompt[..|base|];
    PromptSettingsRoundTrip(base, words, format);
  }

  /** The end-to-end scenario: the watch URL with a time parameter shows the
      thumbnail of "abc123", asks the transcript service for "abc123" and
      sends the prompt followed by the two fragments joined by a space. The
      link is a parameter fixed by `requires`, as in the extraction examples. */
  lemma EndToEndScenario(link: string, prompt: string, fetch: string -> Option<seq<Fragment>>,
                         generate: string -> Option<string>, a: Fragment, b: Fragment)
    requires link == "https://www.youtube.com/watch?v=abc123&t=5s"
    requires fetch("abc123") == Some([a, b])
    ensures ShowThumbnail(link) == Image(ThumbnailUrl("abc123"))
    ensures GetDetailedNotes(link, Some(prompt), fetch, generate).request
         == Some(prompt + a.text + " " + b.text)
  {
    ExampleWatchUrlWithTime(link);
    ThumbnailOfId(link, "abc123");
    TwoFragments(a, b);
    RequestForFragments(link, "abc123", prompt, fetch, generate, [a, b]);
    assert prompt + (a.text + " " + b.text) == prompt + a.text + " " + b.text;
  }

  /** A non-empty link from which extraction returns `id` shows that id's
      thumbnail. */
  lemma ThumbnailOfId(link: string, id: string)
    requires link != "" && ExtractVideoId(link) == VideoId(id)
    ensures ShowThumbnail(link) == Image(ThumbnailUrl(id))
  {
  }

  /** When the service answers for the extracted id with fragments whose
      transcript is non-empty, the request is the prompt followed by that
      transcript. */
  lemma RequestForFragments(link: string, id: string, prompt: string,
                            fetch: string -> Option<seq<Fragment>>,
                            generate: string -> Option<string>, fragments: seq<Fragment>)
    requires ExtractVideoId(link) == VideoId(id) && fetch(id) == Some(fragments)
    requires Transcript(fragments) != ""
    ensures GetDetailedNotes(link, Some(prompt), fetch, generate).request == Some(prompt + Transcript(fragments))
  {
  }

  lemma TwoFragments(a: Fragment, b: Fragment)
    ensures Transcript([a, b]) == a.text + " " + b.text
  {
    assert Texts([a, b]) == [a.text] + [b.text];
    JoinCons(a.text, [b.text], " ");
  }
}
