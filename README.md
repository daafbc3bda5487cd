# YouTube transcript summariser — a Dafny model

The summariser is a small Streamlit page. It takes a YouTube watch link and
pulls the video id out of it with `link.split("v=")[1].split("&")[0]`. It then
asks a transcript service for the captions of that id and joins the caption
texts with single spaces. An instruction prompt is built from the sidebar
settings (a word count and a bullet-or-paragraph format), and the transcript
is appended to it. Only when a non-empty transcript came back does the page
send that text to a generative-text service and show the summary. It also
shows a thumbnail at `http://img.youtube.com/vi/<id>/0.jpg`.

This project models that deterministic core:

- `pystr.dfy` (module `PyStr`) gives the Python string builtins the script
  relies on.
  - `str.find` becomes `Find`.
  - `str.split` with a non-empty separator becomes `Split`, which scans left
    to right over non-overlapping occurrences, exactly as Python does. So
    `split("v=")[1]` is the text between the first and the second `"v="`.
  - `sep.join` becomes `Join`.
  - `str(n)` for a non-negative integer becomes `DecimalString`.
  - Each of these has an inverse or a characterisation proved about it.
- `yt.dfy` (module `YouTube`) models the script itself.
  - Id extraction, with a two-way characterisation of the id it returns.
  - The transcript join.
  - Prompt construction, with a decoder that reads both settings back.
  - The final prompt and the thumbnail.
  - The button pipeline: the transcript step, then generation, which runs
    only on a truthy transcript.

The two network services are parameters of type `string -> Option<…>`:
`None` stands for "the call raised an exception". The model is pure, like
the code it models: the script has no loops and no mutable objects, only
single expressions and `if`/`elif` bindings.

Behaviours of the code that the model keeps as written:

- A URL with `v=` and nothing after it yields the empty id, not an error
  (`YouTube.EmptyIdAfterMarker`, `YouTube.ExampleEmptyId`).
- The code looks only for `"v="`, so a `youtu.be/<id>` link raises
  `IndexError` (`YouTube.ExampleShortLinkFails`).
- Every exception in the transcript step is caught alike and gives `None`,
  so the model has a single transcript failure.
- The source file has CRLF line endings. Python turns those into `"\n"`
  inside the triple-quoted base prompt, so `BasePrompt` uses `"\n"`.
- The prompt lemmas are stated for any base text. `YouTube.ScriptPrompt` is
  the instance on the script's own `BasePrompt` that they cover, and
  `YouTube.ScriptPromptSettings` applies them to it.

## Model

| member | source | states |
|---|---|---|
| `PyStr.Find` | yt.py:32 | the result is the leftmost occurrence of the separator; `None` only when there is no occurrence at all |
| `PyStr.FindFirst` | yt.py:32 | a leftmost occurrence is unique, so `Find` returns it |
| `PyStr.Split` | yt.py:32 | `str.split` always yields at least one piece, so `split("&")[0]` cannot raise |
| `PyStr.SplitSingle` | yt.py:32 | a split has exactly one piece if and only if the separator does not occur, which is when `[1]` raises |
| `PyStr.SplitPiecesFree` | yt.py:32 | no piece of a split contains the separator |
| `PyStr.SplitHead` | yt.py:32 | the first piece is a prefix of the input without the separator; it is either the whole input or followed by the separator |
| `PyStr.SplitSecond` | yt.py:32 | piece 1 is the first piece of the text after the first occurrence, so it stops at the second occurrence |
| `PyStr.Join` | yt.py:34 | joining nothing gives `""`; a join starts with its first piece |
| `PyStr.JoinSplit` | yt.py:32 | joining the pieces of a split with the same separator restores the input |
| `PyStr.JoinLength` | yt.py:34 | n ≥ 1 pieces joined are as long as the pieces plus n − 1 separators |
| `PyStr.JoinSnoc` | yt.py:34 | appending a piece extends a non-empty join by the separator and that piece, so pieces appear in list order |
| `PyStr.JoinCountsSeparators` | yt.py:34 | joining n ≥ 1 pieces free of character c with c adds exactly n − 1 copies of c |
| `PyStr.SplitJoin` | yt.py:34 | splitting a join on a one-character separator absent from the pieces gives the pieces back, in order |
| `PyStr.DecimalString` | yt.py:61 | `str(n)` is a non-empty string of ASCII digits with no leading zero unless n is 0 |
| `PyStr.ParseDecimalString` | yt.py:61 | reading the decimal rendering back gives the number |
| `PyStr.DecimalStringInjective` | yt.py:61 | different word counts render differently |
| `YouTube.ExtractVideoId` | yt.py:32 | extraction raises `IndexError` exactly when the URL contains no `"v="` |
| `YouTube.IdAtUnique` | yt.py:32 | at most one id satisfies the "stands here, holds no `&` or `v=`, ends at `&`, `v=` or the end" description |
| `YouTube.ExtractVideoIdShape` | yt.py:32 | with the first `"v="` at i, extraction succeeds and `"v=" + id` stands at i; the id holds neither `"&"` nor `"v="` and ends at the next `"&"`, the next `"v="` or the end |
| `YouTube.ExtractVideoIdExactly` | yt.py:32 | conversely, any id so placed after the first `"v="` is the one extraction returns |
| `YouTube.EmptyIdAfterMarker` | yt.py:32 | `"v="` followed at once by `"&"`, another `"v="` or the end gives the empty id, not an error |
| `YouTube.ExtractFromWatchUrl` | yt.py:69 | `pre + "v=" + id + rest` gives `id` when `pre` holds no `"v="`, `id` holds neither `"v="` nor '&', and `rest` is empty or starts with `"&"` or `"v="` |
| `YouTube.ExampleWatchUrlWithTime` | yt.py:69 | `https://www.youtube.com/watch?v=abc123&t=5s` gives `abc123` |
| `YouTube.ExampleSecondMarkerTruncates` | yt.py:32 | `watch?v=abcv=def` gives `abc`: a second `"v="` cuts the id short |
| `YouTube.ExampleEmptyId` | yt.py:32 | `watch?v=&t=5` gives the empty id |
| `YouTube.ExampleShortLinkFails` | yt.py:32 | `https://youtu.be/abc123` raises `IndexError` |
| `YouTube.Texts` | yt.py:34 | the list comprehension keeps one text per fragment, in order |
| `YouTube.Transcript` | yt.py:34 | no fragments give `""`; the transcript starts with the first fragment's text |
| `YouTube.TranscriptLength` | yt.py:34 | n ≥ 1 fragments give the total text length plus n − 1 spaces |
| `YouTube.TranscriptKeepsOrder` | yt.py:34 | with space-free fragment texts there are exactly n − 1 spaces, and splitting on `" "` gives the texts back in received order |
| `YouTube.TranscriptSnoc` | yt.py:34 | for any fragment texts, a later fragment's text follows the earlier transcript after one space: received order is kept |
| `YouTube.EmptyTranscriptExactly` | yt.py:34 | the transcript is `""` exactly for no fragments or one fragment with empty text |
| `YouTube.TranscriptExample` | yt.py:34 | fragments "a", "b", "c" give "a b c" |
| `YouTube.BuildPrompt` | yt.py:60-64 | a prompt is bound exactly for "Bullet Points" and "Paragraph"; it starts with the base prompt and contains the decimal word count |
| `YouTube.ScriptPrompt` | yt.py:17-27 | on the script's base text, a prompt is bound exactly for the two radio options and starts with that base text |
| `YouTube.ScriptPromptSettings` | yt.py:60-64 | both settings read back from the script's own prompt |
| `YouTube.ClauseOnBase` | yt.py:61 | base text plus clause starts with the base text and contains the decimal word count |
| `YouTube.ReadOwnClause` | yt.py:61 | the word count is read back from its own clause |
| `YouTube.ParagraphIsNotBullet` | yt.py:64 | the paragraph clause is never mistaken for the bullet clause |
| `YouTube.PromptSettingsRoundTrip` | yt.py:60-64 | reading the settings back from a built prompt gives the word count and the format it was built from |
| `YouTube.BuildPromptInjective` | yt.py:60-64 | different settings give different prompts |
| `YouTube.DecimalExamples` | yt.py:61 | 100 and 300 render as "100" and "300" |
| `YouTube.PromptExamples` | yt.py:60-64 | "Paragraph" with 100 words carries the paragraph clause with "100"; "Bullet Points" with 300 words carries the bullet clause with "300" |
| `YouTube.FinalPrompt` | yt.py:44 | the text sent for generation is the prompt as prefix and the transcript as suffix, nothing between |
| `YouTube.ThumbnailUrl` | yt.py:70 | the thumbnail URL is the fixed host, the id and `/0.jpg`, and the id can be read back from it |
| `YouTube.ShowThumbnail` | yt.py:67-72 | an empty link shows nothing; a non-empty link without `"v="` shows the invalid-link error; otherwise an image |
| `YouTube.ThumbnailShowsVideoId` | yt.py:69-70 | the image shown is the thumbnail of the id extraction describes |
| `YouTube.ThumbnailOfId` | yt.py:67-70 | a non-empty link from which extraction returns an id shows that id's thumbnail |
| `YouTube.ExtractTranscriptDetails` | yt.py:30-38 | a transcript comes back exactly when extraction succeeds and the service answers for that id, and it is the space-joined text of the fragments fetched for that id; a link without `"v="` gives `None` |
| `YouTube.GenerateGeminiContent` | yt.py:41-48 | the generation service is consulted once, on the prompt followed by the transcript; its answer, or `None` for a raised exception, is the result |
| `YouTube.GetDetailedNotes` | yt.py:75-83 | generation is invoked exactly when the transcript is neither `None` nor `""` and a prompt is bound; the request is prompt + transcript; notes are shown exactly when generation returned a non-empty text |
| `YouTube.NoServiceCallOnInvalidLink` | yt.py:30-38 | a link without `"v="` gives the same outcome whatever either service would answer: neither is consulted |
| `YouTube.NoGenerationWithoutTranscript` | yt.py:77-81 | without a truthy transcript the outcome does not depend on the generation service, and nothing is shown |
| `YouTube.EmptyTranscriptSuppressesGeneration` | yt.py:77-81 | an empty fragment list, or one empty fragment, produces `""` and suppresses generation |
| `YouTube.GenerationRunsExactly` | yt.py:77-80 | when the service answers for the extracted id, generation is invoked exactly unless the answer is no fragments or one empty fragment |
| `YouTube.EmptyFragmentsStillGenerate` | yt.py:34-80 | two empty fragments join to `" "`, which is truthy, so generation runs on the prompt followed by a space |
| `YouTube.RequestCarriesPromptAndTranscript` | yt.py:44 | with the sidebar prompt, the request starts with the base text, and its prompt part gives back both settings |
| `YouTube.RequestForFragments` | yt.py:33-44 | when the service answers for the extracted id with a non-empty transcript, the request is the prompt followed by that transcript |
| `YouTube.TwoFragments` | yt.py:34 | two fragments join as first text, a space, second text |
| `YouTube.EndToEndScenario` | yt.py:67-81 | the watch URL with `&t=5s` shows the thumbnail of `abc123`; the request is the prompt followed by both fragments joined by a space |

## Left out

- The Streamlit calls (`st.title`, `text_input`, the sidebar slider and radio, `button`, `spinner`, `image`, `markdown`, `write`, `error`) are presentation only. The model keeps only what they decide: which thumbnail or error shows, and whether notes show.
- `load_dotenv`, `os.getenv` and `genai.configure` (yt.py:8-14) are environment and configuration I/O. The missing-key case is not modelled.
- `YouTubeTranscriptApi.get_transcript` and `GenerativeModel("gemini-pro").generate_content` are network calls. They are the `fetch` and `generate` parameters, total functions whose `None` stands for a raised exception.
- `response.text.strip()` (yt.py:45) depends on Python's Unicode whitespace. The `generate` parameter stands for the already-stripped text.
- The error messages of the `except` blocks are not modelled. Only their outcome (`None`) is kept.
- A fragment without a `"text"` key (a `KeyError`) is not modelled: `Fragment` always has a text. Its `start` and `duration` are carried but unused, as in the code.
- The word count's type is the slider's range: 50 to 5000 in steps of 50. Other integers, such as negative ones rendered with a minus sign, cannot arise.
- A format other than the two radio options leaves `prompt` unbound. Line 80 would then raise `NameError`. The model shows this as the `PromptUnbound` outcome and does not model the traceback's text.
- Streamlit reruns the whole script on every interaction. The model treats one rerun with the button pressed as one call of `GetDetailedNotes`, plus `ShowThumbnail` for the same link.
- `YouTube.ShowThumbnail`: its own contract says only when an image is shown, not which one. That the image is the thumbnail of the extracted id is stated by `YouTube.ThumbnailShowsVideoId`.
