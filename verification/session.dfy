/**
  The session: what one rerun of the page does to the state it keeps between
  reruns. A rerun first shows the link preview, then, when "Get Detailed Notes"
  was pressed, fetches the transcript, asks for a summary and, when notes are
  shown, writes the PDF for download; then it answers the question in the
  question box (if any, and if a transcript is stored), records the box's text,
  and lists the conversation newest first. The PDF step is not guarded, so when
  it raises the run ends before the question box.

  The summary and answer services are oracles: functions from the transcript
  (and the question) to a text, or `None` when the call failed. Whether the PDF
  step succeeds is an oracle too.
 */
module Session {
  import opened Wrappers
  import VideoId
  import Transcript

  /** One question and the answer it got; `None` when answering failed. */
  datatype Turn = Turn(question: string, answer: Option<string>)

  /** The session state after initialisation: transcript, chronological turns, last question. */
  datatype Session = Session(transcript: Option<string>, conversation: seq<Turn>, question: string)

  /** The raw session store, where any key may still be missing. */
  datatype Store = Store(transcript: Option<string>, conversation: Option<seq<Turn>>, question: Option<string>)

  /** The session at the start of a rerun: missing keys get defaults, present keys are kept. */
  function WithDefaults(st: Store): Session
  {
    Session(
      st.transcript,
      if st.conversation.None? then [] else st.conversation.value,
      if st.question.None? then "" else st.question.value)
  }

  function ToStore(s: Session): Store {
    Store(s.transcript, Some(s.conversation), Some(s.question))
  }

  /** Initialising a session that already has its keys changes nothing. */
  lemma DefaultsKeepExisting(s: Session)
    ensures WithDefaults(ToStore(s)) == s
  {
  }

  /** On the first run nothing is stored: no transcript, no turns, an empty question. */
  lemma FirstRunDefaults()
    ensures WithDefaults(Store(None, None, None)) == Session(None, [], "")
  {
  }

  /** Initialising twice is initialising once. */
  lemma DefaultsIdempotent(st: Store)
    ensures WithDefaults(ToStore(WithDefaults(st))) == WithDefaults(st)
  {
    DefaultsKeepExisting(WithDefaults(st));
  }

  // ---------------------------------------------------------------------------
  // "Get Detailed Notes"
  // ---------------------------------------------------------------------------

  /**
    The session after the button, the summary shown if any, and whether the run
    went on past the button: writing the PDF and offering it for download is not
    guarded, so when that raises, the rest of the page is not run.
   */
  datatype NotesOutcome = NotesOutcome(session: Session, notes: Option<string>, completed: bool)

  /**
    The button branch. `writePdf(transcript, notes)` says whether building the
    PDF file and opening it for the download button succeed.
   */
  function GetDetailedNotes(
    s: Session,
    link: string,
    fetch: string -> Transcript.FetchOutcome,
    summarize: string -> Option<string>,
    writePdf: (string, string) -> bool
  ): (r: NotesOutcome)
    ensures r.session.conversation == s.conversation && r.session.question == s.question
    ensures r.session.transcript != s.transcript ==>
      && r.session.transcript == Transcript.ExtractTranscriptDetails(link, fetch)
      && r.session.transcript.Some?
      && r.session.transcript.value != ""
    ensures r.notes.Some? ==>
      && r.notes.value != ""
      && r.session.transcript == Transcript.ExtractTranscriptDetails(link, fetch)
      && r.session.transcript.Some?
      && summarize(r.session.transcript.value) == r.notes
    ensures var f := Transcript.ExtractTranscriptDetails(link, fetch);
      f.Some? && f.value != "" ==>
        && r.session.transcript == f
        && (r.notes.Some? <==> summarize(f.value).Some? && summarize(f.value).value != "")
    ensures r.completed <==> r.notes.None? || writePdf(r.session.transcript.value, r.notes.value)
  {
    var fetched := Transcript.ExtractTranscriptDetails(link, fetch);
    if fetched.Some? && fetched.value != "" then
      var summary := summarize(fetched.value);
      if summary.Some? && summary.value != "" then
        NotesOutcome(s.(transcript := fetched), summary, writePdf(fetched.value, summary.value))
      else
        NotesOutcome(s.(transcript := fetched), None, true)
    else
      NotesOutcome(s, None, true)
  }

  /** A non-empty fetched transcript is stored even when the summary then fails. */
  lemma SummaryFailureKeepsTranscript(
    s: Session,
    link: string,
    fetch: string -> Transcript.FetchOutcome,
    summarize: string -> Option<string>,
    writePdf: (string, string) -> bool
  )
    ensures var fetched := Transcript.ExtractTranscriptDetails(link, fetch);
      fetched.Some? && fetched.value != "" && summarize(fetched.value).None? ==>
        && GetDetailedNotes(s, link, fetch, summarize, writePdf).notes.None?
        && GetDetailedNotes(s, link, fetch, summarize, writePdf).completed
        && GetDetailedNotes(s, link, fetch, summarize, writePdf).session.transcript == fetched
  {
  }

  /** A failed fetch, or an empty transcript, leaves the session exactly as it was. */
  lemma FailedFetchKeepsSession(
    s: Session,
    link: string,
    fetch: string -> Transcript.FetchOutcome,
    summarize: string -> Option<string>,
    writePdf: (string, string) -> bool
  )
    requires Transcript.ExtractTranscriptDetails(link, fetch).None?
      || Transcript.ExtractTranscriptDetails(link, fetch).value == ""
    ensures GetDetailedNotes(s, link, fetch, summarize, writePdf) == NotesOutcome(s, None, true)
  {
  }

  // ---------------------------------------------------------------------------
  // The question box
  // ---------------------------------------------------------------------------

  /**
    The question branch: a turn is appended when the box is non-empty and a
    transcript is stored, whatever the previous question was; the box's text is
    recorded either way.
   */
  function AskQuestion(s: Session, input: string, answer: (string, string) -> Option<string>): (r: Session)
    ensures r.transcript == s.transcript && r.question == input
    ensures s.conversation <= r.conversation
    ensures |r.conversation| == |s.conversation| + (if input != "" && s.transcript.Some? then 1 else 0)
    ensures |r.conversation| > |s.conversation| ==>
      r.conversation[|s.conversation|] == Turn(input, answer(s.transcript.value, input))
  {
    if input != "" && s.transcript.Some? then
      Session(s.transcript, s.conversation + [Turn(input, answer(s.transcript.value, input))], input)
    else
      s.(question := input)
  }

  /** The questions typed over several reruns without the notes button, one after another. */
  function AskAll(s: Session, inputs: seq<string>, answer: (string, string) -> Option<string>): (r: Session)
    ensures r.transcript == s.transcript
    ensures s.conversation <= r.conversation
    ensures |r.conversation| <= |s.conversation| + |inputs|
    ensures |inputs| > 0 ==> r.question == inputs[|inputs| - 1]
    decreases |inputs|
  {
    if |inputs| == 0 then s
    else AskQuestion(AskAll(s, inputs[..|inputs| - 1], answer), inputs[|inputs| - 1], answer)
  }

  /** With a transcript stored, every non-empty question becomes one turn, in the order asked. */
  lemma {:induction false} AskAllAppendsInOrder(s: Session, inputs: seq<string>, answer: (string, string) -> Option<string>)
    requires s.transcript.Some?
    requires forall k :: 0 <= k < |inputs| ==> inputs[k] != ""
    ensures var c := AskAll(s, inputs, answer).conversation;
      && |c| == |s.conversation| + |inputs|
      && forall k :: 0 <= k < |inputs| ==> c[|s.conversation| + k].question == inputs[k]
    decreases |inputs|
  {
    if |inputs| > 0 {
      var n := |inputs| - 1;
      AskAllAppendsInOrder(s, inputs[..n], answer);
      var before := AskAll(s, inputs[..n], answer);
      assert AskAll(s, inputs, answer) == AskQuestion(before, inputs[n], answer);
      forall k | 0 <= k < n
        ensures AskAll(s, inputs, answer).conversation[|s.conversation| + k].question == inputs[k]
      {
        assert inputs[..n][k] == inputs[k];
      }
    }
  }

  /** Without a stored transcript no question is ever recorded as a turn. */
  lemma {:induction false} NoTranscriptNoTurns(s: Session, inputs: seq<string>, answer: (string, string) -> Option<string>)
    requires s.transcript.None?
    ensures AskAll(s, inputs, answer).conversation == s.conversation
    decreases |inputs|
  {
    if |inputs| > 0 {
      NoTranscriptNoTurns(s, inputs[..|inputs| - 1], answer);
    }
  }

  // ---------------------------------------------------------------------------
  // The conversation history
  // ---------------------------------------------------------------------------

  /** The history as listed: the turns in reverse order, newest first. */
  function History(conversation: seq<Turn>): (r: seq<Turn>)
    ensures |r| == |conversation|
    ensures forall i :: 0 <= i < |r| ==> r[i] == conversation[|conversation| - 1 - i]
    decreases |conversation|
  {
    if |conversation| == 0 then []
    else [conversation[|conversation| - 1]] + History(conversation[..|conversation| - 1])
  }

  /** A new turn goes to the top of the listing; the rest keeps its order below it. */
  lemma HistoryNewestFirst(conversation: seq<Turn>, t: Turn)
    ensures History(conversation + [t]) == [t] + History(conversation)
  {
  }

  /** Reading the listing bottom-up gives back the chronological conversation. */
  lemma HistoryReversible(conversation: seq<Turn>)
    ensures History(History(conversation)) == conversation
  {
  }

  /** Asked in order Q1, Q2, Q3, the questions are listed Q3, Q2, Q1. */
  lemma ThreeQuestionsListedNewestFirst(s: Session, answer: (string, string) -> Option<string>)
    requires s.transcript.Some? && s.conversation == []
    ensures var h := History(AskAll(s, ["Q1", "Q2", "Q3"], answer).conversation);
      |h| == 3 && h[0].question == "Q3" && h[1].question == "Q2" && h[2].question == "Q1"
  {
    var inputs := ["Q1", "Q2", "Q3"];
    AskAllAppendsInOrder(s, inputs, answer);
  }

  // ---------------------------------------------------------------------------
  // One rerun
  // ---------------------------------------------------------------------------

  /** What the user did before this rerun: the link box, the button, the question box. */
  datatype Event = Event(link: string, notesPressed: bool, input: string)

  /**
    What the rerun shows, and the session it leaves behind. `history` is the
    listing under "Conversation History", or `None` when the run stopped at the
    PDF step before reaching it.
   */
  datatype Screen = Screen(
    session: Session,
    preview: VideoId.Preview,
    notes: Option<string>,
    history: Option<seq<Turn>>)

  function Rerun(
    s: Session,
    ev: Event,
    fetch: string -> Transcript.FetchOutcome,
    summarize: string -> Option<string>,
    writePdf: (string, string) -> bool,
    answer: (string, string) -> Option<string>
  ): (r: Screen)
    ensures r.preview == VideoId.SidebarPreview(ev.link)
    ensures r.notes == if ev.notesPressed then GetDetailedNotes(s, ev.link, fetch, summarize, writePdf).notes else None
    ensures r.history.None? <==> ev.notesPressed && !GetDetailedNotes(s, ev.link, fetch, summarize, writePdf).completed
    ensures r.history.None? ==> r.session == GetDetailedNotes(s, ev.link, fetch, summarize, writePdf).session
    ensures r.history.Some? ==> r.session.question == ev.input
    ensures r.history.Some? ==>
      r.session == AskQuestion(
        if ev.notesPressed then GetDetailedNotes(s, ev.link, fetch, summarize, writePdf).session else s,
        ev.input, answer)
    ensures s.conversation <= r.session.conversation
    ensures |r.session.conversation| <= |s.conversation| + 1
    ensures s.transcript.Some? ==> r.session.transcript.Some?
    ensures !ev.notesPressed ==> r.session.transcript == s.transcript
    ensures r.history.Some? ==>
      && |r.history.value| == |r.session.conversation|
      && forall i :: 0 <= i < |r.history.value| ==>
           r.history.value[i] == r.session.conversation[|r.session.conversation| - 1 - i]
    ensures |r.session.conversation| > |s.conversation| ==>
      && r.history.Some?
      && r.history.value[0] == r.session.conversation[|s.conversation|]
      && r.history.value[0].question == ev.input
  {
    var preview := VideoId.SidebarPreview(ev.link);
    var afterNotes :=
      if ev.notesPressed then GetDetailedNotes(s, ev.link, fetch, summarize, writePdf)
      else NotesOutcome(s, None, true);
    if !afterNotes.completed then
      Screen(afterNotes.session, preview, afterNotes.notes, None)
    else
      var session := AskQuestion(afterNotes.session, ev.input, answer);
      Screen(session, preview, afterNotes.notes, Some(History(session.conversation)))
  }

  /** A stored transcript is never empty: the button stores only a non-empty text. */
  predicate StoresNonEmpty(s: Session) {
    s.transcript.Some? ==> s.transcript.value != ""
  }

  /** Every rerun keeps the stored transcript non-empty. */
  lemma RerunKeepsTranscriptNonEmpty(
    s: Session,
    ev: Event,
    fetch: string -> Transcript.FetchOutcome,
    summarize: string -> Option<string>,
    writePdf: (string, string) -> bool,
    answer: (string, string) -> Option<string>
  )
    requires StoresNonEmpty(s)
    ensures StoresNonEmpty(Rerun(s, ev, fetch, summarize, writePdf, answer).session)
  {
  }

  /** Reruns without the notes button, one per question typed, in order. */
  function RerunAll(
    s: Session,
    link: string,
    inputs: seq<string>,
    fetch: string -> Transcript.FetchOutcome,
    summarize: string -> Option<string>,
    writePdf: (string, string) -> bool,
    answer: (string, string) -> Option<string>
  ): Session
    decreases |inputs|
  {
    if |inputs| == 0 then s
    else
      var before := RerunAll(s, link, inputs[..|inputs| - 1], fetch, summarize, writePdf, answer);
      Rerun(before, Event(link, false, inputs[|inputs| - 1]), fetch, summarize, writePdf, answer).session
  }

  /**
    Reruns without the button are the question branch applied once per
    question, and the last of them lists that conversation newest first, so
    what is proved of `AskAll` and `History` holds for what the page shows.
   */
  lemma {:induction false} RerunsWithoutButtonAreAskAll(
    s: Session,
    link: string,
    inputs: seq<string>,
    fetch: string -> Transcript.FetchOutcome,
    summarize: string -> Option<string>,
    writePdf: (string, string) -> bool,
    answer: (string, string) -> Option<string>
  )
    ensures RerunAll(s, link, inputs, fetch, summarize, writePdf, answer) == AskAll(s, inputs, answer)
    ensures |inputs| > 0 ==>
      var before := RerunAll(s, link, inputs[..|inputs| - 1], fetch, summarize, writePdf, answer);
      Rerun(before, Event(link, false, inputs[|inputs| - 1]), fetch, summarize, writePdf, answer).history
        == Some(History(AskAll(s, inputs, answer).conversation))
    decreases |inputs|
  {
    if |inputs| > 0 {
      var n := |inputs| - 1;
      RerunsWithoutButtonAreAskAll(s, link, inputs[..n], fetch, summarize, writePdf, answer);
      var r := Rerun(RerunAll(s, link, inputs[..n], fetch, summarize, writePdf, answer),
        Event(link, false, inputs[n]), fetch, summarize, writePdf, answer);
      var h := History(AskAll(s, inputs, answer).conversation);
      assert r.session == AskAll(s, inputs, answer);
      assert |r.history.value| == |h|;
      assert forall i :: 0 <= i < |h| ==> r.history.value[i] == h[i];
    }
  }

  /** Asked on the page in order Q1, Q2, Q3, the third rerun lists them Q3, Q2, Q1. */
  lemma ThreeRerunsListedNewestFirst(
    s: Session,
    link: string,
    fetch: string -> Transcript.FetchOutcome,
    summarize: string -> Option<string>,
    writePdf: (string, string) -> bool,
    answer: (string, string) -> Option<string>
  )
    requires s.transcript.Some? && s.conversation == []
    ensures var before := RerunAll(s, link, ["Q1", "Q2"], fetch, summarize, writePdf, answer);
      var h := Rerun(before, Event(link, false, "Q3"), fetch, summarize, writePdf, answer).history;
      && h.Some? && |h.value| == 3
      && h.value[0].question == "Q3" && h.value[1].question == "Q2" && h.value[2].question == "Q1"
  {
    var inputs := ["Q1", "Q2", "Q3"];
    assert inputs[..2] == ["Q1", "Q2"] && inputs[2] == "Q3";
    RerunsWithoutButtonAreAskAll(s, link, inputs, fetch, summarize, writePdf, answer);
    ThreeQuestionsListedNewestFirst(s, answer);
  }

  /**
    When the notes are shown but the PDF step raises, the run ends there: the
    fetched transcript and the notes stay, but the question box is not read, so
    no turn is added, the stored question is not updated and no history is listed.
   */
  lemma PdfFailureStopsRun(
    s: Session,
    ev: Event,
    fetch: string -> Transcript.FetchOutcome,
    summarize: string -> Option<string>,
    writePdf: (string, string) -> bool,
    answer: (string, string) -> Option<string>
  )
    ensures var n := GetDetailedNotes(s, ev.link, fetch, summarize, writePdf);
      ev.notesPressed && n.notes.Some? && !writePdf(n.session.transcript.value, n.notes.value) ==>
        var r := Rerun(s, ev, fetch, summarize, writePdf, answer);
        && r.notes == n.notes
        && r.history.None?
        && r.session.transcript == Transcript.ExtractTranscriptDetails(ev.link, fetch)
        && r.session.conversation == s.conversation
        && r.session.question == s.question
  {
  }

  /**
    The question box keeps its text between reruns and the append does not
    compare it with the stored question, so any rerun that reaches the question
    box (pressing the notes button, say) with a transcript stored and the same
    question still in the box asks it again.
   */
  lemma RerunRepeatsQuestion(
    s: Session,
    ev: Event,
    fetch: string -> Transcript.FetchOutcome,
    summarize: string -> Option<string>,
    writePdf: (string, string) -> bool,
    answer: (string, string) -> Option<string>
  )
    requires s.transcript.Some? && ev.input != "" && ev.input == s.question
    ensures var r := Rerun(s, ev, fetch, summarize, writePdf, answer);
      r.history.Some? ==>
        && |r.session.conversation| == |s.conversation| + 1
        && r.session.conversation[|s.conversation|].question == s.question
  {
  }

  /** Without the button, a rerun with the stored question in the box always asks it again. */
  lemma RerunWithoutButtonRepeatsQuestion(
    s: Session,
    ev: Event,
    fetch: string -> Transcript.FetchOutcome,
    summarize: string -> Option<string>,
    writePdf: (string, string) -> bool,
    answer: (string, string) -> Option<string>
  )
    requires s.transcript.Some? && ev.input != "" && ev.input == s.question && !ev.notesPressed
    ensures var r := Rerun(s, ev, fetch, summarize, writePdf, answer);
      && r.history.Some?
      && |r.session.conversation| == |s.conversation| + 1
      && r.session.conversation[|s.conversation|].question == s.question
  {
  }

  /**
    Pressing the button for a video without captions shows no notes and stores
    no transcript; with no transcript stored, the question box adds no turn, and
    the unchanged conversation is listed newest first.
   */
  lemma CaptionsDisabledScenario(
    s: Session,
    ev: Event,
    fetch: string -> Transcript.FetchOutcome,
    summarize: string -> Option<string>,
    writePdf: (string, string) -> bool,
    answer: (string, string) -> Option<string>
  )
    requires s.transcript.None? && ev.notesPressed
    requires Transcript.SplitId(ev.link).Some?
    requires fetch(Transcript.SplitId(ev.link).value) == Transcript.CaptionsDisabled
    ensures var r := Rerun(s, ev, fetch, summarize, writePdf, answer);
      && r.notes.None?
      && r.session.transcript.None?
      && r.session.conversation == s.conversation
      && r.history == Some(History(s.conversation))
  {
  }
}
