/** The candidate filter of the task-completion dialog: which pending tasks a newly
    recorded note might have completed. */
module TaskCompletion {
  import opened Notes
  import opened Text
  import opened Lists

  /** A pending task as the dialog receives it; the description may be missing. */
  datatype PendingTask = PendingTask(id: int, description: Option<string>, recordedAt: int)

  /** A detected completion: the note that triggered it, its text (possibly missing) and the
      completion keywords that were found in it. */
  datatype DetectedCompletion =
    DetectedCompletion(recordingId: int, recordingText: Option<string>, keywords: Option<seq<string>>)

  /** At most this many candidates are offered. */
  const MaxCandidates: nat := 3

  /** The lower-cased text of a possibly missing string, "" when it is missing. */
  function LowerOrEmpty(s: Option<string>): (r: string)
    ensures s.None? ==> r == ""
    ensures s.Some? ==> r == Lower(s.value)
  {
    if s.Some? then Lower(s.value) else ""
  }

  /** Words of the lower-cased description, split on white-space runs, longer than two characters. */
  function TaskWords(task: PendingTask): (words: seq<string>)
    ensures forall i :: 0 <= i < |words| ==> |words[i]| > 2 && NoSpace(words[i])
    ensures forall w :: w in words <==> w in SplitSpaces(LowerOrEmpty(task.description)) && |w| > 2
  {
    var pieces := SplitSpaces(LowerOrEmpty(task.description));
    FilterMembers(pieces, LongWord);
    Filter(pieces, LongWord)
  }

  /** Words of at most two characters are ignored. */
  predicate LongWord(word: string)
  {
    |word| > 2
  }

  /** The substring test against the lower-cased text as a plain function value. */
  function OccursIn(lowerText: string): string -> bool
  {
    (word: string) => Includes(lowerText, word)
  }

  /** Some word of the task occurs in the lower-cased recording text. */
  predicate Matches(task: PendingTask, lowerText: string)
  {
    Any(TaskWords(task), OccursIn(lowerText))
  }

  /** The match predicate as a plain function value, for `Filter`. */
  function MatchesIn(lowerText: string): PendingTask -> bool
  {
    (task: PendingTask) => Matches(task, lowerText)
  }

  /** `findMatchingTasks`: the matching pending tasks in their order, cut after three. */
  function FindMatchingTasks(dc: DetectedCompletion, pending: Option<seq<PendingTask>>): (r: seq<PendingTask>)
    ensures pending.None? || pending.value == [] ==> r == []
    ensures |r| <= MaxCandidates
    ensures pending.Some? ==> IsSublist(r, pending.value)
    ensures forall i :: 0 <= i < |r| ==> Matches(r[i], LowerOrEmpty(dc.recordingText))
  {
    if pending.None? || |pending.value| == 0 then []
    else
      var f := MatchesIn(LowerOrEmpty(dc.recordingText));
      var r := FilterCut(pending.value, f, MaxCandidates);
      assert forall i :: 0 <= i < |r| ==> f(r[i]);
      r
  }

  /** The result is exactly the first three matching tasks in their order (all of them when
      fewer than three match), as found by a walk that stops once three are kept. */
  lemma FindMatchingTasksIsFirstMatches(dc: DetectedCompletion, tasks: seq<PendingTask>)
    ensures FindMatchingTasks(dc, Some(tasks))
      == FirstSatisfying(tasks, MatchesIn(LowerOrEmpty(dc.recordingText)), MaxCandidates)
  {
    FilterCutIsFirstSatisfying(tasks, MatchesIn(LowerOrEmpty(dc.recordingText)), MaxCandidates);
  }

  /** A matching task preceded by fewer than three matching tasks is offered. */
  lemma EarlyMatchIncluded(dc: DetectedCompletion, tasks: seq<PendingTask>, j: nat)
    requires j < |tasks|
    requires Matches(tasks[j], LowerOrEmpty(dc.recordingText))
    requires |Filter(tasks[..j], MatchesIn(LowerOrEmpty(dc.recordingText)))| < MaxCandidates
    ensures tasks[j] in FindMatchingTasks(dc, Some(tasks))
  {
    FilterCutKeepsEarly(tasks, MatchesIn(LowerOrEmpty(dc.recordingText)), MaxCandidates, j);
  }

  /** How many candidates are offered: three, or all matching tasks when fewer match. */
  lemma CandidateCount(dc: DetectedCompletion, tasks: seq<PendingTask>)
    ensures var k := |Filter(tasks, MatchesIn(LowerOrEmpty(dc.recordingText)))|;
      |FindMatchingTasks(dc, Some(tasks))| == if k < MaxCandidates then k else MaxCandidates
  {
    var f := MatchesIn(LowerOrEmpty(dc.recordingText));
    if tasks != [] {
      assert FindMatchingTasks(dc, Some(tasks)) == FilterCut(tasks, f, MaxCandidates);
    }
  }

  /** The match predicate spelled out: some white-space separated word of the lower-cased
      description, longer than two characters, is a substring of the text. */
  lemma MatchesIff(task: PendingTask, lowerText: string)
    ensures Matches(task, lowerText) <==>
      exists k :: 0 <= k < |SplitSpaces(LowerOrEmpty(task.description))|
        && |SplitSpaces(LowerOrEmpty(task.description))[k]| > 2
        && Includes(lowerText, SplitSpaces(LowerOrEmpty(task.description))[k])
  {
    var pieces := SplitSpaces(LowerOrEmpty(task.description));
    AnyFilter(pieces, LongWord, OccursIn(lowerText));
    if Matches(task, lowerText) {
      var k :| 0 <= k < |pieces| && LongWord(pieces[k]) && OccursIn(lowerText)(pieces[k]);
      assert |pieces[k]| > 2 && Includes(lowerText, pieces[k]);
    }
    if exists k :: 0 <= k < |pieces| && |pieces[k]| > 2 && Includes(lowerText, pieces[k]) {
      var k :| 0 <= k < |pieces| && |pieces[k]| > 2 && Includes(lowerText, pieces[k]);
      assert LongWord(pieces[k]) && OccursIn(lowerText)(pieces[k]);
    }
  }

  /** A task without a description is never offered. */
  lemma NoDescriptionNeverMatches(task: PendingTask, lowerText: string)
    requires task.description.None?
    ensures !Matches(task, lowerText)
  {
    assert SplitSpaces("") == [""];
  }

  /** A description none of whose white-space separated words is longer than two characters
      never matches. */
  lemma NoLongWordNeverMatches(task: PendingTask, lowerText: string)
    requires forall w :: w in SplitSpaces(LowerOrEmpty(task.description)) ==> |w| <= 2
    ensures !Matches(task, lowerText)
  {
    FilterNone(SplitSpaces(LowerOrEmpty(task.description)), LongWord);
  }

  /** In particular a description of at most two characters never matches. */
  lemma ShortDescriptionNeverMatches(task: PendingTask, lowerText: string)
    requires task.description.Some? && |task.description.value| <= 2
    ensures !Matches(task, lowerText)
  {
    var d := LowerOrEmpty(task.description);
    var pieces := SplitSpaces(d);
    forall k | 0 <= k < |pieces| ensures |pieces[k]| <= 2 {
      SplitSpacesPiecesOccur(d, k);
      IncludesNotLonger(d, pieces[k]);
    }
    NoLongWordNeverMatches(task, lowerText);
  }

  /** A word of more than two characters that stands between white space (or an end) of the
      lower-cased description and occurs in the text makes the task match. */
  lemma DescriptionWordMatches(task: PendingTask, lowerText: string, before: string, word: string, after: string)
    requires task.description.Some? && Lower(task.description.value) == before + word + after
    requires NoSpace(word) && |word| > 2 && Includes(lowerText, word)
    requires before == "" || IsSpace(before[|before| - 1])
    requires after == "" || IsSpace(after[0])
    ensures Matches(task, lowerText)
  {
    var pieces := SplitSpaces(LowerOrEmpty(task.description));
    SplitSpacesHasWord(before, word, after);
    var k :| 0 <= k < |pieces| && pieces[k] == word;
    MatchesIff(task, lowerText);
  }

  /** Conversely, a matching task has a description with such a word: a whole white-space
      delimited word of the lower-cased description, longer than two characters, occurring in
      the text. */
  lemma MatchHasDescriptionWord(task: PendingTask, lowerText: string)
    returns (before: string, word: string, after: string)
    requires Matches(task, lowerText)
    ensures task.description.Some? && Lower(task.description.value) == before + word + after
    ensures NoSpace(word) && |word| > 2 && Includes(lowerText, word)
    ensures before == "" || IsSpace(before[|before| - 1])
    ensures after == "" || IsSpace(after[0])
  {
    var d := LowerOrEmpty(task.description);
    var pieces := SplitSpaces(d);
    MatchesIff(task, lowerText);
    var k :| 0 <= k < |pieces| && |pieces[k]| > 2 && Includes(lowerText, pieces[k]);
    word := pieces[k];
    before, after := PieceCut(d, k);
    assert |d| > 2;
  }

  /** A detected completion with a missing or empty recording text offers no candidate. */
  lemma MissingRecordingTextNoMatch(dc: DetectedCompletion, pending: Option<seq<PendingTask>>)
    requires dc.recordingText.None? || dc.recordingText.value == ""
    ensures FindMatchingTasks(dc, pending) == []
  {
    if pending.Some? && pending.value != [] {
      var tasks := pending.value;
      forall i | 0 <= i < |tasks| ensures !Matches(tasks[i], "") {
        var words := TaskWords(tasks[i]);
        forall j | 0 <= j < |words| ensures !Includes("", words[j]) {
          NotIncludesLonger("", words[j]);
        }
      }
      FilterNone(tasks, MatchesIn(""));
    }
  }

  /** The keywords of the detected completion do not influence the candidates. */
  lemma KeywordsIgnored(dc: DetectedCompletion, keywords: Option<seq<string>>, pending: Option<seq<PendingTask>>)
    ensures FindMatchingTasks(dc.(keywords := keywords), pending) == FindMatchingTasks(dc, pending)
  {
  }
}
