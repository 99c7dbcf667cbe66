/** The "Advanced Text-to-Speech Generator" page: a 12-language table, a word
    count for the input, the generate button with its blank-input guard, and
    a conversion history kept in a JSON file that holds at most the last ten
    conversions and is shown most recent first. */
module TextToSpeech {
  import opened Builtins
  import opened Conversions

  /** The language codes offered in the sidebar and their display names:
      two-letter codes, English (the language that is never translated)
      among them. */
  function Languages(): (m: map<string, string>)
    ensures "en" in m && forall code :: code in m ==> |code| == 2
  {
    map[
      "en" := "English", "es" := "Spanish", "fr" := "French", "de" := "German",
      "it" := "Italian", "pt" := "Portuguese", "ru" := "Russian", "ja" := "Japanese",
      "ko" := "Korean", "zh" := "Chinese", "ar" := "Arabic", "hi" := "Hindi"
    ]
  }

  /** The number of words shown under the input: `len(text.split())`. It is
      zero exactly when the text is blank. */
  function WordCount(text: string): (n: nat)
    ensures n == 0 <==> IsBlank(text)
  {
    WordsEmptyIffBlank(text);
    |Words(text)|
  }

  /** A non-empty text without whitespace counts as one word. */
  lemma WordCountOfWord(w: string)
    requires w != [] && HasNoWhitespace(w)
    ensures WordCount(w) == 1
  {
    WordsOfWord(w);
  }

  /** A whitespace character separates words: the count of a text is the
      count before that character plus the count after it. */
  lemma WordCountSplitAtWhitespace(a: string, c: char, b: string)
    requires IsWhitespace(c)
    ensures WordCount(a + [c] + b) == WordCount(a) + WordCount(b)
  {
    WordsSplitAtWhitespace(a, c, b);
  }

  /** One conversion as stored in the history file. */
  datatype Record = Record(text: string, language: string, timestamp: string)

  /** The history file keeps at most this many conversions. */
  const HistoryCap := 10

  /** What `save_history` starts from: the stored list, or an empty one when
      there is no file yet. */
  function Loaded(stored: Option<seq<Record>>): (history: seq<Record>)
    ensures stored.None? ==> history == []
    ensures stored.Some? ==> history == stored.value
  {
    if stored.Some? then stored.value else []
  }

  /** What `save_history` writes back: the loaded list with the new record
      appended, cut to its last ten entries (`history[-10:]`). */
  function Saved(history: seq<Record>, rec: Record): (written: seq<Record>)
    ensures |written| == if |history| < HistoryCap then |history| + 1 else HistoryCap
    ensures written == (history + [rec])[|history| + 1 - |written|..]
    ensures written[|written| - 1] == rec
  {
    LastN(history + [rec], HistoryCap)
  }

  /** Below the cap nothing is dropped. */
  lemma SavedBelowCap(history: seq<Record>, rec: Record)
    requires |history| < HistoryCap
    ensures Saved(history, rec) == history + [rec]
  {
  }

  /** At the cap exactly the oldest record is evicted; the other nine keep
      their order and the new record comes last. */
  lemma SavedAtCapEvictsOldest(history: seq<Record>, rec: Record)
    requires |history| == HistoryCap
    ensures Saved(history, rec) == history[1..] + [rec]
  {
  }

  /** With no file, the file written holds only the new record. */
  lemma SavedFromNoFile(text: string, lang: string, timestamp: string)
    ensures Saved(Loaded(None), Record(text, lang, timestamp)) == [Record(text, lang, timestamp)]
  {
  }

  /** The history after saving each of `recs` in turn. */
  function SaveAll(history: seq<Record>, recs: seq<Record>): seq<Record>
    decreases |recs|
  {
    if recs == [] then history else SaveAll(Saved(history, recs[0]), recs[1..])
  }

  /** However many conversions are saved, one after the other, the file then
      holds the last ten of everything ever appended (or all of them when
      there are fewer), so never more than ten. */
  lemma {:induction false} SaveAllKeepsLastTen(history: seq<Record>, recs: seq<Record>)
    requires recs != []
    ensures SaveAll(history, recs) == LastN(history + recs, HistoryCap)
    ensures |SaveAll(history, recs)| <= HistoryCap
    decreases |recs|
  {
    var rest := recs[1..];
    assert history + recs == (history + [recs[0]]) + rest;
    if rest == [] {
      assert recs == [recs[0]];
    } else {
      SaveAllKeepsLastTen(Saved(history, recs[0]), rest);
      LastNAbsorbs(history + [recs[0]], rest, HistoryCap);
    }
  }

  /** One entry of the "Recent History" panel: the expander title
      "<timestamp> - <language name>" and the previewed text. */
  datatype Item = Item(title: string, preview: string)

  /** The panel entry for one record: the title is exactly the timestamp,
      the separator " - " and the language's display name; the preview is
      the shortened text. */
  function ItemOf(rec: Record, languages: map<string, string>): (item: Item)
    requires rec.language in languages
    ensures |rec.timestamp| <= |item.title| && item.title[..|rec.timestamp|] == rec.timestamp
    ensures var name := languages[rec.language];
      |name| <= |item.title| && item.title[|item.title| - |name|..] == name
    ensures |item.title| == |rec.timestamp| + 3 + |languages[rec.language]|
    ensures item.title[|rec.timestamp|..|rec.timestamp| + 3] == " - "
    ensures item.preview == Truncate(rec.text)
  {
    Item(rec.timestamp + " - " + languages[rec.language], Truncate(rec.text))
  }

  /** The file `tts_history.json`; `None` when it does not exist. */
  class HistoryFile {
    var contents: Option<seq<Record>>

    constructor (initial: Option<seq<Record>>)
      ensures contents == initial
    {
      contents := initial;
    }

    /** Every stored record names a language of `languages`, as every
        record the page itself writes does. */
    predicate CodesKnown(languages: map<string, string>)
      reads this
    {
      contents.Some? ==>
        forall k :: 0 <= k < |contents.value| ==> contents.value[k].language in languages
    }

    /** `save_history(text, lang, timestamp)`. */
    method SaveHistory(text: string, lang: string, timestamp: string)
      modifies this
      ensures contents == Some(Saved(Loaded(old(contents)), Record(text, lang, timestamp)))
      ensures |contents.value| <= HistoryCap
      ensures forall languages :: old(CodesKnown(languages)) && lang in languages ==> CodesKnown(languages)
    {
      var history: seq<Record> := [];
      if contents.Some? {
        history := contents.value;
      }
      history := history + [Record(text, lang, timestamp)];
      contents := Some(LastN(history, HistoryCap));
    }

    /** The "Recent History" panel: walks the stored list in reverse, most
        recent first, naming each language through `languages` (the page
        passes `Languages()`). Looking up a code missing from it raises in the
        page, so the walk stops there with `complete` false; the items built
        up to that point have been shown. */
    method ShowHistory(languages: map<string, string>) returns (items: seq<Item>, complete: bool)
      ensures contents.None? ==> items == [] && complete
      ensures contents.Some? ==>
        var order := Reversed(contents.value);
        |items| <= |order|
        && (forall k :: 0 <= k < |items| ==> order[k].language in languages && items[k] == ItemOf(order[k], languages))
        && (complete <==> |items| == |order|)
        && (!complete ==> order[|items|].language !in languages)
      ensures CodesKnown(languages) ==> complete
    {
      items, complete := [], true;
      if contents.Some? {
        var history := contents.value;
        ghost var order := Reversed(history);
        var i := |history|;
        while complete && i > 0
          invariant 0 <= i <= |history| && |items| == |history| - i
          invariant forall k :: 0 <= k < |items| ==>
            order[k].language in languages && items[k] == ItemOf(order[k], languages)
          invariant !complete ==> 0 < i && order[|items|].language !in languages
          decreases i, complete
        {
          var entry := history[i - 1];
          if entry.language in languages {
            items := items + [ItemOf(entry, languages)];
            i := i - 1;
          } else {
            complete := false;
          }
        }
      }
    }
  }

  /** A press of "Generate Speech". `translation` stands for what
      `translate_text` returns for a language other than English (the input
      itself when the translator fails) and `synthesized` for whether the
      speech engine produced a file. Only a non-blank input whose synthesis
      succeeded is recorded, with the spoken (translated) text in full. */
  method Generate(file: HistoryFile, userText: string, lang: string, translation: string,
                  synthesized: bool, timestamp: string)
    returns (outcome: Outcome)
    modifies file
    ensures outcome == EmptyInput <==> IsBlank(userText)
    ensures outcome == SynthesisFailed <==> !IsBlank(userText) && !synthesized
    ensures outcome != Generated ==> file.contents == old(file.contents)
    ensures outcome == Generated ==>
      var spoken := if lang != "en" then translation else userText;
      file.contents == Some(Saved(Loaded(old(file.contents)), Record(spoken, lang, timestamp)))
    ensures forall languages :: old(file.CodesKnown(languages)) && lang in languages ==> file.CodesKnown(languages)
  {
    if Strip(userText) != "" {
      var spoken := userText;
      if lang != "en" {
        spoken := translation;
      }
      if synthesized {
        file.SaveHistory(spoken, lang, timestamp);
        outcome := Generated;
      } else {
        outcome := SynthesisFailed;
      }
    } else {
      outcome := EmptyInput;
    }
  }
}
