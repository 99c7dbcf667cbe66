# Text-to-voice-over: the conversion ledgers, verified

The repository is made of web pages that turn typed text into speech. Most of
the code is page layout plus calls into a speech engine and a translator. This
Dafny project models the logic the pages hold themselves. It covers two
conversion-history ledgers, the guard on the "Generate Speech" button, the
preview rule for long texts, the word count and the two language tables.

- `builtins.dfy` (module `Builtins`) models the Python built-ins the pages
  rely on:
  - `str.isspace`, with `str.strip` and `str.split` built on it;
  - the negative slice `xs[-n:]`;
  - `reversed`.
- `conversions.dfy` (module `Conversions`) holds what both pages share. One
  part is the 100-character preview rule (`Truncate`). The other is the way a
  press of the button ends (`Outcome`).
- `text_to_speech.py` is the "Advanced Text-to-Speech Generator" page. Its
  model is `text_to_speech.dfy` (module `TextToSpeech`).
  - The history file `tts_history.json` becomes a `HistoryFile` object.
  - Its field `contents` is `None` while the file does not exist.
  - `SaveHistory` appends a record and keeps the last ten.
  - `ShowHistory` walks the list most recent first.
  - `Generate` is the button handler.
- `streamlit_app.py` is the "Text-to-Speech Converter" page. Its model is
  `streamlit_app.dfy` (module `StreamlitApp`).
  - The session state becomes a `SessionState` object whose history field
    is `None` until the script creates the key.
  - The history has no cap.
  - `ShowRecent` builds the panel of the last five entries, most recent
    first, numbered by their 1-based position in the whole history.

The speech engine and the translator are outside the model. They appear only
as parameters. `synthesized` says whether the engine produced a file.
`translation` is the text the translator returned, which is the input itself
when the translator fails.

Three facts about the code shape the model.
- Neither `save_history` nor the history panel catches errors from
  `json.load` (text_to_speech.py:51-52, 110-111). The model has no
  read-failure path.
- The session history in `streamlit_app.py` has no cap. Only its view is
  limited to five entries.
- `streamlit_app.py` stores the language's display name
  (streamlit_app.py:117). `text_to_speech.py` stores the code
  (text_to_speech.py:136).

## Model

| member | source | states |
|---|---|---|
| `Builtins.IsWhitespace` | text_to_speech.py:118 | the character set of Python's `str.isspace`, which `strip()` and `split()` use; space, tab, newline and carriage return are in it, ASCII letters and digits are not |
| `Builtins.TrimStart` | text_to_speech.py:118 | the result of `lstrip` is a suffix of the input; everything dropped is whitespace; it does not start with whitespace; it is empty exactly when the input is blank |
| `Builtins.TrimEnd` | streamlit_app.py:100 | the result of `rstrip` is a prefix of the input; everything dropped is whitespace; it does not end with whitespace; it is empty exactly when the input is blank |
| `Builtins.Strip` | text_to_speech.py:118 | `strip()` is no longer than its input, is empty exactly when the input is blank, and otherwise begins and ends with a non-whitespace character |
| `Builtins.LeadingWordLength` | text_to_speech.py:104 | the leading word found by `split` holds no whitespace and is followed by whitespace or by the end of the text |
| `Builtins.Words` | text_to_speech.py:104 | every word `split()` returns is non-empty and holds no whitespace |
| `Builtins.WordsOfWord` | text_to_speech.py:104 | a non-empty text without whitespace is a single word |
| `Builtins.WordsSplitAtWhitespace` | text_to_speech.py:104 | the words of a text with a whitespace character in it are the words before that character followed by the words after it; with WordsOfWord this fixes `split()` completely |
| `Builtins.WordsCoverText` | text_to_speech.py:104 | the words of `split()`, concatenated, are exactly the text's non-whitespace characters, in order |
| `Builtins.WordsEmptyIffBlank` | text_to_speech.py:103-105 | `split()` finds no word exactly when the text is blank |
| `Builtins.LastN` | text_to_speech.py:61 | `xs[-n:]` is the suffix of `xs` of length `min(n, len(xs))` |
| `Builtins.LastNAbsorbs` | text_to_speech.py:61 | cutting to the last `n`, appending more and cutting again equals cutting once at the end |
| `Builtins.Reversed` | text_to_speech.py:112 | position `i` of `reversed(xs)` holds the element `i` places from the end, and the length is kept |
| `Conversions.Truncate` | text_to_speech.py:114 | a text of at most 100 characters is kept; a longer one becomes its first 100 characters plus "...", 103 characters in all |
| `Conversions.TruncateBounds` | streamlit_app.py:116 | a stored text is at most 103 characters long and starts with the input's first `min(100, len)` characters |
| `TextToSpeech.Languages` | text_to_speech.py:11-16 | `"en"` (English, the untranslated default) is a key and every code has two letters; the 12 pairs themselves are the literal body |
| `TextToSpeech.WordCount` | text_to_speech.py:103-105 | the word count is zero exactly when the input is blank |
| `TextToSpeech.WordCountOfWord` | text_to_speech.py:104-105 | a non-empty text without whitespace counts one word |
| `TextToSpeech.WordCountSplitAtWhitespace` | text_to_speech.py:104-105 | a whitespace character separates words: the count is the count before it plus the count after it |
| `TextToSpeech.Loaded` | text_to_speech.py:49-52 | definition: the stored list when the file exists, otherwise the empty list that `save_history` starts from |
| `TextToSpeech.Saved` | text_to_speech.py:54-61 | the written list has `min(10, len+1)` records; it is the tail of the old list plus the new record, in insertion order; the new record is last |
| `TextToSpeech.SavedBelowCap` | text_to_speech.py:54-61 | with fewer than 10 stored records nothing is dropped: the result is the old list plus the new record |
| `TextToSpeech.SavedAtCapEvictsOldest` | text_to_speech.py:61 | with exactly 10 stored records exactly the oldest is evicted, and the other nine keep their order |
| `TextToSpeech.SavedFromNoFile` | text_to_speech.py:49-58 | with no file the result is the single new record holding the given text, language and timestamp |
| `TextToSpeech.SaveAllKeepsLastTen` | text_to_speech.py:48-61 | after any non-empty series of saves the file holds the last ten of all records ever appended, so never more than ten |
| `TextToSpeech.HistoryFile.SaveHistory` | text_to_speech.py:48-61 | the file afterwards holds `Saved` of the loaded list and the new record, at most 10 records; if every stored code was in the table and the new one is too, that still holds |
| `TextToSpeech.ItemOf` | text_to_speech.py:113-114 | the expander title is exactly the timestamp, then `" - "`, then the language's display name; the preview is `Truncate` of the stored text |
| `TextToSpeech.HistoryFile.ShowHistory` | text_to_speech.py:109-114 | the panel lists the stored records most recent first, each with title "timestamp - language name" and its preview; it is empty when there is no file; it stops at the first unknown code, where the page raises; when every code is known every record is shown |
| `TextToSpeech.Generate` | text_to_speech.py:117-141 | blank input gives the validation outcome and a failed synthesis the failure outcome, and neither touches the file; a success saves the spoken text (translated unless the language is English) with the chosen code and timestamp |
| `StreamlitApp.Languages` | streamlit_app.py:14-25 | `"en"` is a key and every code has two letters; the 10 pairs themselves are the literal body |
| `StreamlitApp.Initialised` | streamlit_app.py:73-74 | definition: the existing history, or an empty one when the key is missing |
| `StreamlitApp.InitialisedIdempotent` | streamlit_app.py:73-74 | initialising twice gives the same history as initialising once |
| `StreamlitApp.SessionState.InitHistory` | streamlit_app.py:72-74 | the history key is set to an empty list only when it is absent; an existing history is left untouched |
| `StreamlitApp.SessionState.Generate` | streamlit_app.py:99-122 | blank input or a failed synthesis leaves the history unchanged; a success appends exactly one entry, holding the shortened text and the display name, and keeps every earlier entry; nothing is evicted |
| `StreamlitApp.RecentView` | streamlit_app.py:127-129 | the view has `min(5, len)` entries; entry `idx` is the history's `idx`-th from the end, labelled `len(history) - idx` |
| `StreamlitApp.Labels` | streamlit_app.py:129 | one label per view entry, `min(5, len)` in all; the label at view position `idx` is `len(history) - idx` |
| `StreamlitApp.LabelsCountDown` | streamlit_app.py:128-129 | labels start at the history's length and fall by one; each lies between 1 and the length and is the 1-based position of the entry it shows |
| `StreamlitApp.SessionState.ShowRecent` | streamlit_app.py:124-133 | an empty history shows the no-history notice; otherwise the loop over `reversed(history[-5:])` produces exactly `RecentView` |

## Left out

- Speech synthesis (gTTS), translation (googletrans) and temporary files are
  calls into external libraries. Each is a parameter: a success flag, and the
  translated text.
- The speed slider and its `speed < 1.0` test are floating point and only
  choose the engine's slow mode, so they are left out.
- Download links are left out. They are a file read, a base64 encoding and an
  HTML string.
- Reading and writing `tts_history.json` are left out, and so is the
  existence check. The file is the `contents` field, with `None` for "no
  file". A file that is not valid JSON makes the page fail. This model
  assumes the file holds a list of records.
- `datetime.now()` is left out. The timestamp is a string parameter.
- Layout, styling, spinners, messages and the instructions panel are left
  out. The messages appear only as the `Outcome` of a press.
- The word count is shown only for non-empty input (`if user_text:`). That
  test is not modelled; `TextToSpeech.WordCount` is the count itself.
- StreamlitApp.SessionState.Generate: requires the chosen code to be in
  `LANGUAGES`. The language box offers only those codes, and the page would
  raise on any other.
- TextToSpeech.HistoryFile.ShowHistory: takes the language table as a
  parameter, because the page looks names up in the table that `main`
  loaded. The page passes `TextToSpeech.Languages()`.
