/** The "Text-to-Speech Converter" page: a 10-language table, the generate
    button with its blank-input guard, and a per-session conversion history
    that grows without bound but is shown as its last five entries, most
    recent first, each labelled with its 1-based position in the history. */
module StreamlitApp {
  import opened Builtins
  import opened Conversions

  /** `LANGUAGES`: the codes offered in the language box and their names,
      all two-letter codes, English among them. */
  function Languages(): (m: map<string, string>)
    ensures "en" in m && forall code :: code in m ==> |code| == 2
  {
    map[
      "en" := "English", "es" := "Spanish", "fr" := "French", "de" := "German",
      "it" := "Italian", "pt" := "Portuguese", "hi" := "Hindi", "ja" := "Japanese",
      "ko" := "Korean", "zh" := "Chinese"
    ]
  }

  /** One history entry: the (shortened) input text and the language's
      display name. */
  datatype Entry = Entry(text: string, language: string)

  /** The history panel shows at most this many entries. */
  const ViewSize := 5

  /** One expander of the panel: its "Conversion <label>" number and entry. */
  datatype Conversion = Conversion(number: int, entry: Entry)

  /** The history panel: a notice when there is no history, the recent
      conversions otherwise. */
  datatype Panel = NoHistory | Recent(conversions: seq<Conversion>)

  /** The history as it is after the script's first lines have run:
      an existing history is kept, a missing one becomes empty. */
  function Initialised(history: Option<seq<Entry>>): (h: seq<Entry>)
    ensures history.Some? ==> h == history.value
    ensures history.None? ==> h == []
  {
    if history.Some? then history.value else []
  }

  /** Initialising twice is initialising once: a rerun of the script never
      clears the history. */
  lemma InitialisedIdempotent(history: Option<seq<Entry>>)
    ensures Initialised(Some(Initialised(history))) == Initialised(history)
  {
  }

  /** `reversed(history[-5:])` numbered by `enumerate`: the last five entries,
      most recent first, the one at view position `idx` labelled
      `len(history) - idx`. */
  function RecentView(history: seq<Entry>): (view: seq<Conversion>)
    ensures |view| == if |history| < ViewSize then |history| else ViewSize
    ensures forall idx :: 0 <= idx < |view| ==>
      view[idx] == Conversion(|history| - idx, history[|history| - 1 - idx])
  {
    var recent := Reversed(LastN(history, ViewSize));
    seq(|recent|, idx requires 0 <= idx < |recent| => Conversion(|history| - idx, recent[idx]))
  }

  /** The labels of the view, top to bottom: `len(history) - idx` for each
      view position `idx`. */
  function Labels(history: seq<Entry>): (labels: seq<int>)
    ensures |labels| == |RecentView(history)|
    ensures |labels| == if |history| < ViewSize then |history| else ViewSize
    ensures forall idx :: 0 <= idx < |labels| ==> labels[idx] == |history| - idx
  {
    var view := RecentView(history);
    seq(|view|, idx requires 0 <= idx < |view| => view[idx].number)
  }

  /** The labels start at the history's length and fall by one from each
      expander to the next; each is the 1-based position, in the whole
      history, of the entry it shows, so every label is at least 1. */
  lemma LabelsCountDown(history: seq<Entry>)
    ensures history != [] ==> Labels(history)[0] == |history|
    ensures forall idx :: 0 < idx < |Labels(history)| ==> Labels(history)[idx] == Labels(history)[idx - 1] - 1
    ensures forall idx :: 0 <= idx < |Labels(history)| ==>
      1 <= Labels(history)[idx] <= |history| && RecentView(history)[idx].entry == history[Labels(history)[idx] - 1]
  {
  }

  /** `st.session_state`, as far as the history goes: `None` until the
      script has created the `history` key. */
  class SessionState {
    var history: Option<seq<Entry>>

    /** A new session, with no history key yet. */
    constructor ()
      ensures history == None
    {
      history := None;
    }

    /** Runs at the top of every script run: creates an empty history when
        the session has none and leaves an existing one alone. */
    method InitHistory()
      modifies this
      ensures history == Some(Initialised(old(history)))
    {
      if history.None? {
        history := Some([]);
      }
    }

    /** A press of "Generate Speech" with `code` chosen in the language box.
        `synthesized` stands for whether the speech engine produced a file.
        Only a non-blank input whose synthesis succeeded is recorded: one entry
        is appended, with the text shortened and the language's display
        name; nothing is ever removed. */
    method Generate(userText: string, code: string, synthesized: bool) returns (outcome: Outcome)
      requires history.Some? && code in Languages()
      modifies this
      ensures outcome == EmptyInput <==> IsBlank(userText)
      ensures outcome == SynthesisFailed <==> !IsBlank(userText) && !synthesized
      ensures outcome != Generated ==> history == old(history)
      ensures outcome == Generated ==>
        history == Some(old(history).value + [Entry(Truncate(userText), Languages()[code])])
    {
      if Strip(userText) != "" {
        if synthesized {
          var h := history.value;
          h := h + [Entry(Truncate(userText), Languages()[code])];
          history := Some(h);
          outcome := Generated;
        } else {
          outcome := SynthesisFailed;
        }
      } else {
        outcome := EmptyInput;
      }
    }

    /** The "Recent Conversions" panel: the no-history notice for an empty
        history, otherwise a loop over `reversed(history[-5:])` with
        `enumerate`. */
    method ShowRecent() returns (panel: Panel)
      requires history.Some?
      ensures history.value == [] ==> panel == NoHistory
      ensures history.value != [] ==> panel == Recent(RecentView(history.value))
    {
      var h := history.value;
      if h == [] {
        return NoHistory;
      }
      var recent := LastN(h, ViewSize);
      var conversions: seq<Conversion> := [];
      var idx := 0;
      while idx < |recent|
        invariant 0 <= idx <= |recent| && |conversions| == idx
        invariant forall j :: 0 <= j < idx ==>
          conversions[j] == Conversion(|h| - j, h[|h| - 1 - j])
      {
        var item := recent[|recent| - 1 - idx];
        conversions := conversions + [Conversion(|h| - idx, item)];
        idx := idx + 1;
      }
      panel := Recent(conversions);
    }
  }
}
